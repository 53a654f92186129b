/*
 * The declarations of states.h: how a state table is laid out, the machine
 * record a table is run on, the 16-bit timer arithmetic, the millisecond to
 * tick conversion and the macros that emit table entries.
 */
module States {

  datatype Option<T> = None | Some(value: T)

  /** `uint16_t` */
  newtype u16 = x: int | 0 <= x < 0x1_0000

  /** The period of the 16-bit tick arithmetic. */
  const TICK_PERIOD: int := 0x1_0000

  /** The conversion of an integer into a `uint16_t`: keep the low 16 bits. */
  function Truncate16(x: int): (r: u16)
    ensures (x - r as int) % TICK_PERIOD == 0
  {
    (x % TICK_PERIOD) as u16
  }

  // The result codes a state function returns.
  const SM_RETURN_SKIP_TWO_JUMPS: int := 5
  const SM_RETURN_SKIP_JUMP: int := 3
  const SM_RETURN_SKIP_JUMP_SIZE: int := 2
  const SM_RETURN_SKIP_NEXT: int := 2
  const SM_RETURN_REPEAT: int := 0
  const SM_RETURN_DONE: int := 1
  const SM_RETURN_ERROR: int := -1

  /** A non-negative result keeps the machine running; a negative one aborts it. */
  predicate Continues(result: int) {
    result >= 0
  }

  /**
   * The result that skips the `k` jump entries (two slots each) following a
   * state: SM_RETURN_DONE plus k times SM_RETURN_SKIP_JUMP_SIZE. The named
   * codes are its instances for one and two jumps.
   */
  function SkipJumps(k: nat): (r: int)
    ensures Continues(r) && r % 2 == 1 && r == 1 + 2 * k
    ensures k == 0 ==> r == SM_RETURN_DONE
    ensures k == 1 ==> r == SM_RETURN_SKIP_JUMP
    ensures k == 2 ==> r == SM_RETURN_SKIP_TWO_JUMPS
  {
    SM_RETURN_DONE + k * SM_RETURN_SKIP_JUMP_SIZE
  }

  /** The state functions a table slot can point at: the three built-ins of states.c and those an application supplies, told apart by number. */
  datatype Handler = DelayTicks | WaitTicks | JumpTable | User(id: nat)

  /** One slot of a state table. */
  datatype Entry =
    | Step(handler: Handler)  // a state function
    | Imm(value: int)         // an inline operand read by sm_delay_ticks_state: a tick count
    | Target(table: nat)      // an inline operand read by sm_jump_table_state: a table
    | Null                    // a slot holding a null pointer

  predicate IsOperand(e: Entry) {
    e.Imm? || e.Target?
  }

  /**
   * A slot whose pointer value is NULL: a null pointer, or a tick count of 0,
   * which SM_SET_TIMER_MS(0) stores in a pointer-sized slot. sm_run_state
   * tests the slot for NULL before calling it.
   */
  predicate NullSlot(e: Entry) {
    e.Null? || e == Imm(0)
  }

  /** A state table; tables are named by their position in a sequence of tables. */
  type Table = seq<Entry>

  /** Where `stateptrptr` points: a slot of one of the tables. */
  datatype Cursor = At(table: nat, index: nat)

  /** The three fields of `struct state_machine`, as a value. */
  datatype State = State(cursor: Option<Cursor>, start: u16, delay: u16)

  /**
   * SM_IS_TIMER_DONE: the low 16 bits of the tick count minus `start`, taken
   * again modulo 2^16, are at least `delay`.
   */
  predicate TimerDone(start: u16, delay: u16, now: nat) {
    ((now % TICK_PERIOD) - start as int) % TICK_PERIOD >= delay as int
  }

  /** At least `delay` ticks have passed from `t0` to `now`, counted modulo 2^16. */
  predicate Elapsed(t0: int, delay: u16, now: int) {
    (now - t0) % TICK_PERIOD >= delay as int
  }

  lemma ModSubtract(a: int, b: int)
    ensures ((a % TICK_PERIOD) - b) % TICK_PERIOD == (a - b) % TICK_PERIOD
  {
    var q := a / TICK_PERIOD;
    assert a - b == ((a % TICK_PERIOD) - b) + q * TICK_PERIOD;
    ModShift((a % TICK_PERIOD) - b, q);
  }

  lemma {:induction false} ModShift(x: int, q: int)
    ensures (x + q * TICK_PERIOD) % TICK_PERIOD == x % TICK_PERIOD
    decreases if q < 0 then -q else q
  {
    if q > 0 {
      ModShift(x, q - 1);
      assert x + q * TICK_PERIOD == (x + (q - 1) * TICK_PERIOD) + TICK_PERIOD;
    } else if q < 0 {
      ModShift(x, q + 1);
      assert x + q * TICK_PERIOD == (x + (q + 1) * TICK_PERIOD) - TICK_PERIOD;
    }
  }

  /**
   * The expiry test only depends on the time elapsed since the arming tick,
   * modulo 2^16: the timer is not done exactly while (now - start) mod 2^16
   * is below the delay.
   */
  lemma TimerDoneElapsed(start: u16, delay: u16, now: nat)
    ensures TimerDone(start, delay, now) <==> Elapsed(start as int, delay, now)
  {
    ModSubtract(now, start as int);
  }

  /**
   * A timer armed at tick `t0` with `delay` is not done for the first `delay`
   * ticks and done for the rest of the 16-bit period, across wrap-around.
   */
  lemma TimerWindow(t0: nat, delay: u16, k: nat)
    requires k < TICK_PERIOD
    ensures TimerDone(Truncate16(t0), delay, t0 + k) <==> k >= delay as int
  {
    TimerDoneElapsed(Truncate16(t0), delay, t0 + k);
    ModSubtract(t0, t0 - t0 % TICK_PERIOD);
    assert (t0 + k - Truncate16(t0) as int) == k + (t0 - t0 % TICK_PERIOD);
    ModShift(k, t0 / TICK_PERIOD);
  }

  /** Armed with a positive delay, the timer is not done at the arming tick; with delay 0 it is done at once. */
  lemma ArmedTimerAtOnce(now: nat, delay: u16)
    ensures TimerDone(Truncate16(now), delay, now) <==> delay == 0
  {
    TimerWindow(now, delay, 0);
  }

  /** The default SM_TICK_RATE: ticks per second. */
  const SM_TICK_RATE: int := 1000

  /** C's `/` on signed integers: the quotient truncated toward zero. */
  function CDiv(a: int, b: int): (q: int)
    requires b > 0
    ensures a >= 0 ==> q == a / b
    ensures a < 0 ==> q == -((-a) / b)
  {
    if a >= 0 then a / b else -((-a) / b)
  }

  /** SM_MS_TO_TICKS for a tick rate `rate`: ((ms * rate) + 0) / 1000. */
  function MsToTicksAt(rate: int, ms: int): (ticks: int) {
    CDiv(ms * rate + 0, 1000)
  }

  /** SM_MS_TO_TICKS at the default tick rate. */
  function MsToTicks(ms: int): (ticks: int)
    ensures ticks == ms
  {
    MsToTicksAt(SM_TICK_RATE, ms)
  }

  /** For non-negative inputs the conversion rounds down: `ticks` whole ticks fit in `ms`, one more does not. */
  lemma MsToTicksRoundsDown(rate: nat, ms: nat)
    ensures MsToTicksAt(rate, ms) * 1000 <= ms * rate < (MsToTicksAt(rate, ms) + 1) * 1000
  {
    var q := MsToTicksAt(rate, ms);
    assert ms * rate == q * 1000 + (ms * rate) % 1000;
  }

  /** A positive delay can convert to zero ticks: at 100 ticks a second, 5 ms is 0 ticks, not the one tick a rounding up would give. */
  lemma MsToTicksNotRoundedUp()
    ensures MsToTicksAt(100, 5) == 0
  {
  }

  /** SM_SET_TIMER_MS(ms): the delay state and its tick count; arms the timer without waiting. */
  function SetTimerMs(ms: int): (r: seq<Entry>)
    ensures r == [Step(DelayTicks), Imm(ms)]
  {
    [Step(DelayTicks), Imm(MsToTicks(ms))]
  }

  /** SM_DELAY_MS(ms): SM_SET_TIMER_MS(ms) followed by the wait state. */
  function DelayMs(ms: int): (r: seq<Entry>)
    ensures |r| == 3 && r[..2] == SetTimerMs(ms) && r[2] == Step(WaitTicks)
  {
    SetTimerMs(ms) + [Step(WaitTicks)]
  }

  /** SM_JUMP(dest): the jump state and the table it goes to. */
  function Jump(dest: nat): (r: seq<Entry>)
    ensures |r| == 2 && r[0] == Step(JumpTable) && r[1] == Target(dest)
  {
    [Step(JumpTable), Target(dest)]
  }

  /** Several SM_JUMP entries in a row, one per destination. */
  function Jumps(dests: seq<nat>): (r: seq<Entry>)
  {
    if dests == [] then [] else Jump(dests[0]) + Jumps(dests[1..])
  }

  /** The j-th jump of a run of SM_JUMP entries starts at slot 2j and its target sits at slot 2j+1. */
  lemma {:induction false} JumpsLayout(dests: seq<nat>, j: nat)
    requires j < |dests|
    ensures |Jumps(dests)| == 2 * |dests|
    ensures Jumps(dests)[2 * j] == Step(JumpTable)
    ensures Jumps(dests)[2 * j + 1] == Target(dests[j])
  {
    if j == 0 {
      JumpsLength(dests);
    } else {
      JumpsLayout(dests[1..], j - 1);
      assert dests[1..][j - 1] == dests[j];
    }
  }

  /** A run of n SM_JUMP entries takes 2n slots. */
  lemma {:induction false} JumpsLength(dests: seq<nat>)
    ensures |Jumps(dests)| == 2 * |dests|
  {
    if dests != [] {
      JumpsLength(dests[1..]);
    }
  }

  /** `struct state_machine` */
  class Machine {
    var cursor: Option<Cursor>  // stateptrptr; None is NULL
    var startTimer: u16
    var delay: u16

    /** A statically allocated machine: every field zero, so the cursor is NULL. */
    constructor ()
      ensures cursor == None && startTimer == 0 && delay == 0
    {
      cursor := None;
      startTimer := 0;
      delay := 0;
    }

    function Fields(): State
      reads this
    {
      State(cursor, startTimer, delay)
    }

    /** SM_IS_TIMER_DONE on this machine. */
    predicate IsTimerDone(now: nat)
      reads this
    {
      TimerDone(startTimer, delay, now)
    }

    /** SM_START_TIMER: record the tick count and the delay, both cut to 16 bits; the cursor is untouched. */
    method StartTimer(now: nat, ticks: int)
      modifies this
      ensures startTimer == Truncate16(now) && delay == Truncate16(ticks)
      ensures cursor == old(cursor)
    {
      startTimer := Truncate16(now);
      delay := Truncate16(ticks);
    }

    /** SM_SET_TABLE: point the machine at the first slot of a table. */
    method SetTable(table: nat)
      modifies this
      ensures cursor == Some(At(table, 0))
      ensures startTimer == old(startTimer) && delay == old(delay)
    {
      cursor := Some(At(table, 0));
    }
  }
}
