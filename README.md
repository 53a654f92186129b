# Table-driven state machines, a key-echo demo, and a circular list

This project models three parts of a small C library for run-to-completion
embedded programs.

- **The state-machine engine** (`states.h`, `states.c`). A machine is a cursor
  into a table of state functions, plus a 16-bit timer. `sm_run_state` runs
  the one state under the cursor. The result then either repeats the state
  (0), moves the cursor forward by that many slots (> 0), or aborts the
  machine (< 0). Some table slots are operands, not states: a tick count after
  the delay state, or a table address after the jump state. The timer test
  subtracts modulo 2^16, so it stays correct when the tick counter wraps.
- **The demo program** (`example.c`). Two machines share a 512-byte ring
  buffer. One reads keys into it and one prints them out. Each runs its own
  table. The main loop restarts a stopped machine, then calls it while results
  are positive.
- **The intrusive circular doubly-linked list** (`cdll.h`, `cdll.c`). The
  model covers its init, insert, delete and swap operations and its two
  traversal macros.

Files and modules:

- `states_h.dfy` (module `States`) holds the table layout, the machine record
  as class `Machine`, the timer arithmetic, the tick conversion and the
  table-building macros.
- `states_c.dfy` (module `Engine`) holds the pure function `Dispatch`, which
  describes one call of `sm_run_state`, and lemmas about it. It also holds
  the three built-in states and `sm_run_state` as methods on a `Machine`.
  `RunState` is proved against `Dispatch`. The three built-in states carry
  their own contracts, and the lemmas `DelayStep`, `WaitStep` and `JumpStep`
  say what `Dispatch` does on each of them. The module also holds the lemmas
  about runs of calls (`Trace`) and about tables that are closed under their
  states' results.
- `example_c.dfy` (module `KeyDemo`) holds the demo tables, proved closed, and
  `fab_main_state` as class `FabMainState`. The ring buffer is an
  `array<byte>` with a ghost `Contents()`. The module also holds the demo's
  states and the main loop's bursts.
- `cdll.dfy` (module `Cdll`) holds `struct cdll` as class `Node`. The ring a
  link is on is a ghost sequence `r`, with `r[0]` the list head (sentinel).
  Every pointer-rewiring operation is proved to turn that ring into a stated
  new ring.

Table slots hold function pointers in C. Here they are a tagged `Entry`:
`Step(handler)` for a state, `Imm(ticks)` and `Target(table)` for the two
kinds of operand, and `Null` for a null pointer. `SM_SET_TIMER_MS(0)` stores
a tick count of 0 in a pointer-sized slot, and that slot reads as NULL, so
`NullSlot` counts `Imm(0)` as a null slot too. Tables are named by their
index in a sequence of tables. An application's own state functions are
`User(id)`. Their result is an input to `Dispatch`/`RunState`. The demo runs
its own states just before calling the engine, as `sm_run_state` would call
them.

## Model

| member | source | states |
|---|---|---|
| States.Truncate16 | states.h:123-127 | storing into a `uint16_t` field keeps a value congruent to the input modulo 2^16 |
| States.SkipJumps | states.h:56-67 | the skip codes are DONE plus twice the number of jumps skipped: 1, 3 and 5 for zero, one and two jumps; all are non-negative and odd |
| States.TimerDoneElapsed | states.h:81-83 | SM_IS_TIMER_DONE holds exactly when (now - start) mod 2^16 is at least the delay |
| States.TimerWindow | states.h:74-83 | a timer armed at t0 is not done for the first `delay` ticks and is done for the rest of the 16-bit period, across wrap-around |
| States.ArmedTimerAtOnce | states.h:74-83 | at the arming tick the timer is done exactly when the delay is 0 |
| States.MsToTicks | states.h:41-47 | at the default rate of 1000 ticks per second the conversion is the identity |
| States.MsToTicksRoundsDown | states.h:46-47 | for any rate, the tick count is the floor of ms*rate/1000 |
| States.MsToTicksNotRoundedUp | states.h:46-47 | at 100 ticks per second 5 ms converts to 0 ticks, so the conversion does not round up |
| States.SetTimerMs | states.h:51-53 | SM_SET_TIMER_MS emits the delay state followed by its tick count |
| States.DelayMs | states.h:48-50 | SM_DELAY_MS is SM_SET_TIMER_MS followed by the wait state |
| States.Jump | states.h:55 | SM_JUMP emits two slots: the jump state, then its destination table |
| States.JumpsLength | states.h:55 | a run of n SM_JUMP entries takes 2n slots |
| States.JumpsLayout | states.h:55 | in a run of SM_JUMP entries, jump j starts at slot 2j and its target is at slot 2j+1 |
| States.Machine.constructor | states.h:123-127 | a zero-initialised machine has a NULL cursor and a zero timer |
| States.Machine.StartTimer | states.h:74-77 | SM_START_TIMER stores the tick count and the delay, each cut to 16 bits, and leaves the cursor alone |
| States.Machine.SetTable | states.h:84 | SM_SET_TABLE points the cursor at the first slot of the table and leaves the timer alone |
| Engine.Dispatch | states.c:68-89 | one call: a NULL cursor or a null slot (a null pointer, or a zero tick count) gives -1 with nothing written; on a state the result is the state's; a negative result clears the cursor and keeps the timer; only the delay state writes the timer; a non-negative result moves the cursor by that many slots from where the state left it |
| Engine.DelayStep | states.c:21-33 | through sm_run_state the delay state returns 1, arms the timer with its operand at `now`, and moves the cursor two slots net |
| Engine.JumpStep | states.c:51-58 | through sm_run_state the jump state returns 0 and puts the cursor on the first slot of its target table, timer untouched |
| Engine.WaitStep | states.c:38-45 | the wait state returns 0 and changes nothing until the timer is done, then returns 1 and moves one slot |
| Engine.UserStep | states.c:72-86 | on an application state the call returns the state's result; a non-negative result moves the cursor that many slots and keeps the timer; a negative one clears the cursor |
| Engine.SkipStep | states.h:56-67 | through sm_run_state, a state returning SkipJumps(j) moves the cursor 1 + 2j slots, past itself and j jumps |
| Engine.JumpSlots | states.h:55-63 | in a table holding a run of SM_JUMP entries from slot `from`, jump j is the jump state at `from + 2j` with its target right after, so a state just before the run that returns SkipJumps(j) lands on jump j |
| Engine.ClosedKeepsOnStep | states.c:77-86 | in tables closed under their states' results, one call leaves the machine on a state or aborted |
| Engine.ClosedNeverAborts | states.c:77-86 | if moreover no state can return a negative result, the machine is never aborted |
| Engine.Trace | states.c:60-68 | successive calls, each at its own tick and with its own answers from the application states, give one result per call; the run stops early only where C would be undefined (a cursor past the end of its table, or on an operand that is not NULL-valued) |
| Engine.WaitUntilExpiry | states.c:38-45 | on the wait state, calls return 0 while fewer than `delay` ticks have elapsed since arming (mod 2^16), then 1 and move on one slot, whatever that slot holds |
| Engine.DelayThenWait | states.h:48-50 | SM_DELAY_MS: the first call arms the timer and reaches the wait, which holds the machine until the delay has elapsed; results 1, 0, ..., 0, 1 |
| Engine.ClosedTraceRuns | states.c:68-89 | in closed tables whose states never fail, a run of any length, in which every call's application answers are results the states can return, gives one non-negative result per call and keeps the cursor on a state |
| Engine.DelayTicksState | states.c:21-33 | with a NULL cursor returns 0 and changes nothing; otherwise moves onto the operand, arms the timer with it at `now`, returns 1 |
| Engine.WaitTicksState | states.c:38-45 | returns 1 exactly when the timer is done, else 0; writes nothing |
| Engine.JumpTableState | states.c:51-58 | moves the cursor to the first slot of the operand's table, returns 0, timer untouched |
| Engine.RunState | states.c:68-89 | with no machine returns -1; otherwise its result and the machine's new fields are those `Dispatch` gives for the old fields |
| KeyDemo.TablesLayout | example.c:112-124 | the two tables, written slot by slot, are exactly what their SM_SET_TIMER_MS and SM_JUMP macros expand to |
| KeyDemo.TablesClosed | example.c:112-124 | both tables are closed under the results of their states, and every jump goes back to the head of its own table |
| KeyDemo.DemoLanding | example.c:112-124 | from every state of either table, each result the state can return lands on a state of the same table; a positive result shortens the remaining burst; a jump returns 0 and goes to its table's head; read_key lands on a jump; print_key lands on a jump unless it returns 0 |
| KeyDemo.DemoStep | example.c:112-124 | a call on either table never aborts, stays on a state of the same table, and a positive result shortens the remaining burst; after read_key, and after print_key unless it repeats, the cursor is on a jump, which ends the burst |
| KeyDemo.DemoRunsForever | example.c:151-171 | the demo's machines, started on a state and answered on each call by anything their states can return, never abort and stay on a state over a run of any length |
| KeyDemo.DemoDelayArms | example.c:112-124 | the delay state at the head of either table (3000 and 6000 ms) returns 1, moves onto the next state and arms a timer that is not done at the arming tick |
| KeyDemo.InputStep | example.c:112-119 | one call on get_key_table, with input_available and read_key answering as example.c's do: read_key with room in the ring stores the byte and lands on the jump that ends the burst; any other call leaves unchanged whether the rest of the burst stores the byte; a call never aborts, and a result 0 leaves the machine on its table's head or on a polling state |
| KeyDemo.OutputStep | example.c:120-124 | one call on display_key_table, with print_key answering as example.c's does: print_key with its timer not done and a byte in the ring prints and lands on the jump that ends the burst; any other call leaves unchanged whether the rest of the burst prints; a call never aborts, and a result 0 leaves the machine resting |
| KeyDemo.GetKeyLandings | example.c:112-119 | input_available's 1 and 3 land on the timeout jump and on read_key; read_key's 1 and 3 land on the buffer-full jump and the key-stored jump |
| KeyDemo.InputAvailableState | example.c:43-61 | returns 1 exactly when the timer is done, 3 exactly when it is not and a key is ready, else 0 |
| KeyDemo.FabMainState.ContentsLength | example.c:30-36 | the ring holds (head - tail) mod 512 bytes, at most 511, and is empty exactly when head == tail |
| KeyDemo.FabMainState.constructor | example.c:138-141 | main's start state: empty ring and both machines stopped |
| KeyDemo.FabMainState.ReadKeyState | example.c:63-82 | returns 1 exactly when the ring holds 511 bytes, and then changes nothing; otherwise stores the byte at head, advances head with wrap-around, appends the byte to the contents and returns 3 |
| KeyDemo.FabMainState.PrintKeyState | example.c:84-107 | timer done: returns 1, prints nothing; ring empty: returns 0; otherwise prints the oldest byte, drops it from the contents, advances tail, returns 1 |
| KeyDemo.FabMainState.RunInputOnce | example.c:158-161 | one call on the input machine is `Dispatch` of the old fields, with input_available answering 1 when the timer is done, else 3 when a key is ready, else 0, and read_key answering 1 exactly when the ring is full; the byte is appended exactly when read_key runs with room, and the call then lands on the jump that ends the burst; otherwise the ring is unchanged and so is whether the rest of the burst stores the byte; it never aborts |
| KeyDemo.FabMainState.RunOutputOnce | example.c:168-171 | one call on the output machine is `Dispatch` of the old fields, with print_key answering 1 when the timer is done or the ring is not empty, else 0; the oldest byte is printed and removed exactly when print_key runs with its timer not done and the ring not empty; otherwise nothing is printed, the ring is unchanged and so is whether the rest of the burst prints |
| KeyDemo.FabMainState.InputBurst | example.c:153-161 | restart at the table's head if stopped, then call while positive: at most four calls; the byte read is appended exactly when `StoresKey` holds of the machine as found (ring not full, and read_key next, or a key ready with the head's delay or input_available before its timeout next); the machine ends on its head or on input_available |
| KeyDemo.FabMainState.OutputBurst | example.c:163-171 | restart at the table's head if stopped, then call while positive: at most three calls; the oldest byte is printed and removed exactly when `PrintsKey` holds of the machine as found (ring not empty, and the head's delay next, or print_key before its timeout); the machine ends on its head or on print_key |
| KeyDemo.FabMainState.MainLoopPass | example.c:151-174 | one pass of the main loop: the byte read joins the ring exactly when `StoresKey` holds of the input machine; the oldest byte of the ring so extended is printed exactly when `PrintsKey` holds of the output machine; what was printed followed by the ring's new contents is the extended ring (first in, first out) |
| Cdll.Node.constructor | cdll.h:23-26 | a calloc'd link: both pointers NULL |
| Cdll.InsertAfter | cdll.c:26-34 | the ring after inserting a link after position j: one longer, the link at j+1, the others in order, the same links plus the new one |
| Cdll.InsertBefore | cdll.c:56-60 | inserting before position k; before the head that means at the end of the ring |
| Cdll.Remove | cdll.c:61-67 | the ring without position k: the others in order, the same links less the removed one |
| Cdll.RingLinked | cdll.c:30-33 | on a ring every link's successor points back with `prev` and its predecessor with `next` |
| Cdll.Init | cdll.c:21-25 | cdll_init makes the link a self-loop: a ring of one, an empty list |
| Cdll.AddNode | cdll.c:26-34 | writing only the new link and its two neighbours turns the ring into the ring with the link inserted after `prev` |
| Cdll.InsertHead | cdll.c:43-47 | the new link goes right after the head: with the sentinel as head it becomes the first element |
| Cdll.InsertTail | cdll.c:56-60 | the new link goes right before the head: with the sentinel as head it becomes the last element |
| Cdll.Delete | cdll.c:61-67 | writing only the link and its two neighbours, the ring loses exactly that link, the rest keep their order, and the link becomes a self-loop |
| Cdll.MoveBefore | cdll.c:69-75 | the ring after moving one link to sit before another: same length, same links |
| Cdll.MoveBeforeLayout | cdll.c:68-75 | away from the head the move lifts the link out and drops it before the other; it is a move, not an exchange |
| Cdll.Swap | cdll.c:69-75 | the same link twice changes nothing; otherwise `newfirst` ends up right before `oldfirst` on the moved ring |
| Cdll.ForEach | cdll.h:27-28 | the forward walk visits the list's elements in order, each once, none on an empty list, and writes nothing |
| Cdll.ForEachRev | cdll.h:30-31 | the backward walk visits exactly the same elements in reverse order |
| Cdll.FillQueue | cdll.h:43-51 | links inserted one by one at the tail are listed in insertion order (FIFO) |
| Cdll.FillStack | cdll.h:34-42 | links inserted one by one at the head are listed in reverse insertion order (FILO) |

## Code and its comments

- `states.h:46` says the tick conversion rounds up so that 1 tick is the
  smallest delay. The macro adds 0 before dividing, so it rounds down.
  `MsToTicksNotRoundedUp` shows a positive delay that becomes 0 ticks at
  100 ticks per second. The model follows the code.
- `states.h:142-150` describes a separate code, NULL_STATE_PTR_ERROR (-257),
  for a machine whose pointers are not set. `sm_run_state` never returns it.
  A null machine, a NULL cursor or a null slot all give -1, which is the same
  as a state's own error. A null slot also leaves the cursor where it is, so
  every later call returns -1 again. A zero tick count from
  `SM_SET_TIMER_MS(0)` is such a null slot. The model follows the code.
- A cursor moved past the end of its table is not a stopped machine in the
  code: the next call reads past the array. The model treats this as
  undefined. `RunState` and `Dispatch` require a runnable cursor, and `Trace`
  stops before such a call. `TablesClosed` proves the demo tables never get
  there.
- The delay state moves the cursor onto its operand and returns 1, so the
  net move over one call is two slots (`DelayStep`).

## Left out

- The tick source `getms` (getms.c) becomes the parameter `now`. Console I/O becomes inputs and outputs: `select` becomes `keyReady`, `getchar` becomes `inByte`, and `putchar` becomes the byte returned. `printf`, `tcsetattr` and `nanosleep` are left out. timer.h is not part of this model.
- `container_of`, `cast_p_to_outer` and `elements_of` are pointer arithmetic. The demo's states are methods of `FabMainState` and reach the ring directly.
- Application state functions are `User(id)`, and their result is an input to the engine. In C such a function can also move the cursor or write the timer. None in this repository does, and the model does not allow it.
- A slot holding a non-zero tick count or a table address can be called as a function pointer in C. The model excludes this through the `Runnable` precondition.
- `SM_STOP_TIMER` expands to nothing, so the model writes nothing for it.
- States.MsToTicks: the multiplication `ms * 1000L` in the tick conversion can overflow a `long` in C. The model uses unbounded integers. The demo's constants are far from the limit.
- The delay operand is read back from a pointer-sized slot as an `unsigned int`. The model stores it as an integer and cuts it to 16 bits when arming.
- KeyDemo.FabMainState.InputBurst: one tick value `now` serves every call of a burst. The C code reads the clock again on each call.
- KeyDemo.FabMainState.OutputBurst: one tick value `now` serves every call of a burst, as for the input burst.
- KeyDemo.FabMainState.MainLoopPass: models one pass of the endless `while (1)` loop. The loop itself and the 1 ms sleep are left out.
- `data` is `char` in C. The model keeps the low 8 bits of what `getchar` returns, EOF included, as a byte from 0 to 255.
- The list operations require a well-formed ring, and an inserted link must not already be on it. In C, a link that was never initialised, or one inserted twice, corrupts the list. The model does not describe that.
- list_unit_test.c deletes and frees the current link inside a `cdll_for_each` loop. `Delete` self-loops the link, so such a loop cannot advance past it. That loop is not modelled, and neither is freeing memory.
