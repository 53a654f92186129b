/*
 * The demonstration program of example.c: two machines sharing a 512-byte
 * ring buffer, one reading keys into it and one printing them out, each
 * driven by a constant state table, and the main loop's restart-and-burst
 * rule. Console I/O is replaced by inputs (is a key ready, which byte,
 * the tick count) and outputs (the byte printed).
 */
module KeyDemo {
  import opened States
  import opened Engine

  /** A `char` of the ring buffer. */
  newtype byte = x: int | 0 <= x < 0x100

  /** getchar's result stored into a `char`: the low 8 bits. */
  function Truncate8(x: int): (b: byte)
    ensures (x - b as int) % 0x100 == 0
  {
    (x % 0x100) as byte
  }

  /** sizeof(data) */
  const RING_SIZE: nat := 512

  // The application state functions of the demo.
  const INPUT_AVAILABLE: nat := 0
  const READ_KEY: nat := 1
  const PRINT_KEY: nat := 2

  // The two tables, by their position in DemoTables.
  const GET_KEY_TABLE: nat := 0
  const DISPLAY_KEY_TABLE: nat := 1

  /** get_key_table, slot by slot; TablesLayout shows it is what the table's macros emit. */
  const GetKeyTable: Table :=
    [Step(DelayTicks), Imm(3000),            // SM_SET_TIMER_MS(3000)
     Step(User(INPUT_AVAILABLE)),
     Step(JumpTable), Target(GET_KEY_TABLE), // timeout
     Step(User(READ_KEY)),
     Step(JumpTable), Target(GET_KEY_TABLE), // buffer full
     Step(JumpTable), Target(GET_KEY_TABLE)] // key stored

  /** display_key_table, slot by slot. */
  const DisplayKeyTable: Table :=
    [Step(DelayTicks), Imm(6000),            // SM_SET_TIMER_MS(6000)
     Step(User(PRINT_KEY)),
     Step(JumpTable), Target(DISPLAY_KEY_TABLE)]

  const DemoTables: seq<Table> := [GetKeyTable, DisplayKeyTable]

  /** The two tables are the expansions of the macros example.c builds them from. */
  lemma TablesLayout()
    ensures GetKeyTable
            == SetTimerMs(3000)
               + [Step(User(INPUT_AVAILABLE))]
               + Jump(GET_KEY_TABLE)
               + [Step(User(READ_KEY))]
               + Jump(GET_KEY_TABLE)
               + Jump(GET_KEY_TABLE)
    ensures DisplayKeyTable
            == SetTimerMs(6000)
               + [Step(User(PRINT_KEY))]
               + Jump(DISPLAY_KEY_TABLE)
  {
  }

  /** The results each application state of the demo can return. */
  ghost function Outcomes(id: nat): set<int> {
    if id == INPUT_AVAILABLE then {SM_RETURN_REPEAT, SM_RETURN_DONE, SM_RETURN_SKIP_JUMP}
    else if id == READ_KEY then {SM_RETURN_DONE, SM_RETURN_SKIP_JUMP}
    else if id == PRINT_KEY then {SM_RETURN_REPEAT, SM_RETURN_DONE}
    else {}
  }

  /**
   * Both tables are closed: from every state, under every result it can
   * return, the cursor lands on a state of the same table; and every jump
   * goes back to the first slot of its own table.
   */
  lemma TablesClosed()
    ensures Closed(DemoTables, Outcomes)
    ensures forall c: Cursor | OnStep(DemoTables, c) && DemoTables[c.table][c.index] == Step(JumpTable) ::
              HandlerCursor(DemoTables, c) == At(c.table, 0)
  {
    forall c: Cursor | OnStep(DemoTables, c)
      ensures OperandPresent(DemoTables, c)
      ensures forall r | r in Possible(DemoTables[c.table][c.index].handler, Outcomes) && r >= 0 ::
                OnStep(DemoTables, Advance(HandlerCursor(DemoTables, c), r))
      ensures DemoTables[c.table][c.index] == Step(JumpTable) ==> HandlerCursor(DemoTables, c) == At(c.table, 0)
    {
      forall r | r in Possible(DemoTables[c.table][c.index].handler, Outcomes) && r >= 0 {
        DemoLanding(c, r);
      }
      if DemoTables[c.table][c.index] == Step(JumpTable) {
        DemoLanding(c, SM_RETURN_REPEAT);
      }
    }
  }

  /**
   * How many more sm_run_state calls a burst of the main loop can make from
   * a cursor, counting the one that ends it.
   */
  function BurstBound(c: Cursor): (n: nat)
    ensures 1 <= n <= 4
  {
    if c.table == GET_KEY_TABLE then
      if c.index == 0 then 4 else if c.index == 2 then 3 else if c.index == 5 then 2 else 1
    else
      if c.index == 0 then 3 else if c.index == 2 then 2 else 1
  }

  /**
   * Where a result of the state at `c` sends the cursor, in the demo
   * tables: onto a state of the same table; closer to the end of the burst
   * when the result is positive; from a jump only with the result 0; from
   * read_key_state onto a jump; and from print_key_state onto a jump unless
   * the result is 0.
   */
  lemma DemoLanding(c: Cursor, r: int)
    requires OnStep(DemoTables, c)
    requires r in Possible(DemoTables[c.table][c.index].handler, Outcomes) && r >= 0
    ensures OperandPresent(DemoTables, c)
    ensures var c' := Advance(HandlerCursor(DemoTables, c), r);
            OnStep(DemoTables, c') && c'.table == c.table
            && (r > 0 ==> BurstBound(c') < BurstBound(c))
            && (Designates(c, JumpTable) ==> r == SM_RETURN_REPEAT && c' == At(c.table, 0))
            && (Designates(c, User(READ_KEY)) ==> Designates(c', JumpTable) && BurstBound(c) == 2)
            && (Designates(c, User(PRINT_KEY)) ==> (Designates(c', JumpTable) || r == SM_RETURN_REPEAT) && BurstBound(c) == 2)
  {
    if c.table == GET_KEY_TABLE {
      assert c.index in {0, 2, 3, 5, 6, 8};
    } else {
      assert c.index in {0, 2, 3};
    }
  }

  /**
   * One call of sm_run_state on a machine parked in one of the demo tables:
   * it never aborts, stays on a state of the same table, and a positive
   * result (the only kind that lets a burst go on) brings it closer to the
   * end of the burst.
   */
  lemma DemoStep(s: State, now: nat, user: int)
    requires s.cursor.Some? && OnStep(DemoTables, s.cursor.value)
    requires DemoTables[s.cursor.value.table][s.cursor.value.index].handler.User? ==>
               user in Outcomes(DemoTables[s.cursor.value.table][s.cursor.value.index].handler.id)
    ensures var (r, s') := Dispatch(DemoTables, s, now, user);
            Continues(r) && s'.cursor.Some? && OnStep(DemoTables, s'.cursor.value)
            && s'.cursor.value.table == s.cursor.value.table
            && (r > 0 ==> BurstBound(s'.cursor.value) < BurstBound(s.cursor.value))
    ensures var (r, s') := Dispatch(DemoTables, s, now, user);
            && (Designates(s.cursor.value, JumpTable) ==> r == SM_RETURN_REPEAT)
            && (Designates(s.cursor.value, User(READ_KEY)) ==> Designates(s'.cursor.value, JumpTable))
            && (Designates(s.cursor.value, User(PRINT_KEY)) ==> Designates(s'.cursor.value, JumpTable) || r == SM_RETURN_REPEAT)
    ensures Designates(s.cursor.value, User(READ_KEY)) || Designates(s.cursor.value, User(PRINT_KEY)) ==>
              BurstBound(s.cursor.value) == 2
  {
    var c := s.cursor.value;
    var h := DemoTables[c.table][c.index].handler;
    var r := HandlerResult(h, s, now, user);
    assert r in Possible(h, Outcomes);
    assert r >= 0 by {
      if h.User? {
        assert h.id in {INPUT_AVAILABLE, READ_KEY, PRINT_KEY};
      }
    }
    DemoLanding(c, r);
  }

  /** Answers in which each application state of the demo returns one of its possible results. */
  ghost predicate DemoAnswers(app: Answers) {
    && app(INPUT_AVAILABLE) in Outcomes(INPUT_AVAILABLE)
    && app(READ_KEY) in Outcomes(READ_KEY)
    && app(PRINT_KEY) in Outcomes(PRINT_KEY)
  }

  /** The demo tables hold no application state other than the three. */
  lemma DemoAnswerable(app: Answers)
    requires DemoAnswers(app)
    ensures Answerable(DemoTables, Outcomes, app)
  {
    forall c: Cursor | OnStep(DemoTables, c) && DemoTables[c.table][c.index].handler.User?
      ensures app(DemoTables[c.table][c.index].handler.id) in Outcomes(DemoTables[c.table][c.index].handler.id)
    {
      if c.table == GET_KEY_TABLE {
        assert c.index in {2, 5};
      } else {
        assert c.index == 2;
      }
    }
  }

  /**
   * Either machine of the demo, on any state of its table, is never
   * aborted: over any sequence of ticks, whatever its states answer within
   * their possible results, every call returns a non-negative result and
   * the cursor stays on a state.
   */
  lemma DemoRunsForever(s: State, nows: seq<nat>, apps: seq<Answers>)
    requires s.cursor.Some? && OnStep(DemoTables, s.cursor.value)
    requires |apps| == |nows| && forall i | 0 <= i < |apps| :: DemoAnswers(apps[i])
    ensures var out := Trace(DemoTables, s, nows, apps);
            |out.0| == |nows| && (forall i | 0 <= i < |out.0| :: Continues(out.0[i]))
            && out.1.cursor.Some? && OnStep(DemoTables, out.1.cursor.value)
  {
    TablesClosed();
    forall i | 0 <= i < |apps|
      ensures Answerable(DemoTables, Outcomes, apps[i])
    {
      DemoAnswerable(apps[i]);
    }
    ClosedTraceRuns(DemoTables, Outcomes, s, nows, apps);
  }

  /**
   * In get_key_table, input_available_state's results 1 and 3 land on the
   * timeout jump and on read_key_state; read_key_state's 1 and 3 land on the
   * buffer-full jump and on the key-stored jump.
   */
  lemma GetKeyLandings(s: State, now: nat)
    requires s.cursor.Some? && s.cursor.value.table == GET_KEY_TABLE
    ensures s.cursor.value.index == 2 ==>
              Dispatch(DemoTables, s, now, SM_RETURN_DONE).1.cursor == Some(At(GET_KEY_TABLE, 3))
              && Dispatch(DemoTables, s, now, SM_RETURN_SKIP_JUMP).1.cursor == Some(At(GET_KEY_TABLE, 5))
    ensures s.cursor.value.index == 5 ==>
              Dispatch(DemoTables, s, now, SM_RETURN_DONE).1.cursor == Some(At(GET_KEY_TABLE, 6))
              && Dispatch(DemoTables, s, now, SM_RETURN_SKIP_JUMP).1.cursor == Some(At(GET_KEY_TABLE, 8))
  {
    if s.cursor.value.index == 2 {
      SkipStep(DemoTables, s, now, INPUT_AVAILABLE, 0);
      SkipStep(DemoTables, s, now, INPUT_AVAILABLE, 1);
    }
    if s.cursor.value.index == 5 {
      SkipStep(DemoTables, s, now, READ_KEY, 0);
      SkipStep(DemoTables, s, now, READ_KEY, 1);
    }
  }

  /** The cursor is on the state `h` of the demo tables. */
  predicate Designates(c: Cursor, h: Handler) {
    InTable(DemoTables, c) && DemoTables[c.table][c.index] == Step(h)
  }

  /** A machine the main loop can run: stopped, or on a state of its own table. */
  ghost predicate Parked(cursor: Option<Cursor>, table: nat) {
    cursor.None? || (OnStep(DemoTables, cursor.value) && cursor.value.table == table)
  }

  /** Where a burst leaves a machine: at the head of its table, or on the state that polls for work. */
  predicate Resting(c: Cursor) {
    Designates(c, DelayTicks) || Designates(c, User(INPUT_AVAILABLE)) || Designates(c, User(PRINT_KEY))
  }

  /**
   * Whether the rest of an input burst from `cursor` stores the byte read:
   * never into a full ring; otherwise when read_key_state is next, or when
   * input_available_state will find a key ready before its timer is done.
   * At the head of the table, where a stopped machine restarts, the delay
   * state re-arms the timer first, so there only the key counts.
   */
  ghost predicate StoresKey(cursor: Option<Cursor>, timerDone: bool, keyReady: bool, full: bool) {
    && !full
    && (|| (cursor.None? && keyReady)
        || (cursor.Some? && Designates(cursor.value, DelayTicks) && keyReady)
        || (cursor.Some? && Designates(cursor.value, User(INPUT_AVAILABLE)) && !timerDone && keyReady)
        || (cursor.Some? && Designates(cursor.value, User(READ_KEY))))
  }

  /**
   * Whether the rest of an output burst from `cursor` prints a byte: never
   * from an empty ring; otherwise when print_key_state is next with its
   * timer not done, or from the head of the table, whose delay state
   * re-arms the timer.
   */
  ghost predicate PrintsKey(cursor: Option<Cursor>, timerDone: bool, empty: bool) {
    && !empty
    && (|| cursor.None?
        || (cursor.Some? && Designates(cursor.value, DelayTicks))
        || (cursor.Some? && Designates(cursor.value, User(PRINT_KEY)) && !timerDone))
  }

  /** The delay state of either table arms a timer that is not done at the arming tick. */
  lemma DemoDelayArms(s: State, now: nat, user: int)
    requires s.cursor.Some? && Designates(s.cursor.value, DelayTicks)
    ensures var (r, s') := Dispatch(DemoTables, s, now, user);
            r == SM_RETURN_DONE && s'.cursor == Some(Advance(s.cursor.value, 2))
            && !TimerDone(s'.start, s'.delay, now)
  {
    var c := s.cursor.value;
    assert c.index == 0;
    DelayStep(DemoTables, s, now, user);
    var ticks := DemoTables[c.table][1].value;
    assert ticks == 3000 || ticks == 6000;
    ArmedTimerAtOnce(now, Truncate16(ticks));
  }

  /**
   * One call on the input machine, its application states answering as
   * example.c's do: read_key_state with room in the ring stores the byte
   * and lands on the jump that ends the burst; any other call leaves the
   * question open, in that the rest of the burst stores the byte after the
   * call exactly when it did before. A result 0 leaves the machine resting.
   */
  lemma InputStep(s: State, now: nat, keyReady: bool, full: bool, user: int)
    requires s.cursor.Some? && OnStep(DemoTables, s.cursor.value) && s.cursor.value.table == GET_KEY_TABLE
    requires Designates(s.cursor.value, User(INPUT_AVAILABLE)) ==>
               user == if TimerDone(s.start, s.delay, now) then SM_RETURN_DONE
                       else if keyReady then SM_RETURN_SKIP_JUMP else SM_RETURN_REPEAT
    requires Designates(s.cursor.value, User(READ_KEY)) ==>
               user == if full then SM_RETURN_DONE else SM_RETURN_SKIP_JUMP
    ensures var (r, s') := Dispatch(DemoTables, s, now, user);
            && Continues(r) && s'.cursor.Some? && OnStep(DemoTables, s'.cursor.value)
            && s'.cursor.value.table == s.cursor.value.table
            && (r > 0 ==> BurstBound(s'.cursor.value) < BurstBound(s.cursor.value))
            && (r == SM_RETURN_REPEAT ==> Resting(s'.cursor.value))
            && if Designates(s.cursor.value, User(READ_KEY)) && !full
               then r > 0 && BurstBound(s'.cursor.value) == 1
               else (StoresKey(s.cursor, TimerDone(s.start, s.delay, now), keyReady, full)
                     <==> r > 0 && StoresKey(s'.cursor, TimerDone(s'.start, s'.delay, now), keyReady, full))
  {
    var c := s.cursor.value;
    DemoStep(s, now, user);
    assert c.index in {0, 2, 3, 5, 6, 8};
    if c.index == 0 {
      DemoDelayArms(s, now, user);
    } else if c.index == 2 {
      UserStep(DemoTables, s, now, INPUT_AVAILABLE, user);
    } else if c.index == 5 {
      UserStep(DemoTables, s, now, READ_KEY, user);
    } else {
      JumpStep(DemoTables, s, now, user);
    }
  }

  /**
   * One call on the output machine, print_key_state answering as example.c's
   * does: print_key_state with its timer not done and a byte in the ring
   * prints it and lands on the jump that ends the burst; any other call
   * leaves the question open, as InputStep says for the input machine.
   */
  lemma OutputStep(s: State, now: nat, empty: bool, user: int)
    requires s.cursor.Some? && OnStep(DemoTables, s.cursor.value) && s.cursor.value.table == DISPLAY_KEY_TABLE
    requires Designates(s.cursor.value, User(PRINT_KEY)) ==>
               user == if TimerDone(s.start, s.delay, now) || !empty then SM_RETURN_DONE else SM_RETURN_REPEAT
    ensures var (r, s') := Dispatch(DemoTables, s, now, user);
            && Continues(r) && s'.cursor.Some? && OnStep(DemoTables, s'.cursor.value)
            && s'.cursor.value.table == s.cursor.value.table
            && (r > 0 ==> BurstBound(s'.cursor.value) < BurstBound(s.cursor.value))
            && (r == SM_RETURN_REPEAT ==> Resting(s'.cursor.value))
            && if Designates(s.cursor.value, User(PRINT_KEY)) && !TimerDone(s.start, s.delay, now) && !empty
               then r > 0 && BurstBound(s'.cursor.value) == 1
               else (PrintsKey(s.cursor, TimerDone(s.start, s.delay, now), empty)
                     <==> r > 0 && PrintsKey(s'.cursor, TimerDone(s'.start, s'.delay, now), empty))
  {
    var c := s.cursor.value;
    DemoStep(s, now, user);
    assert c.index in {0, 2, 3};
    if c.index == 0 {
      DemoDelayArms(s, now, user);
    } else if c.index == 2 {
      UserStep(DemoTables, s, now, PRINT_KEY, user);
    } else {
      JumpStep(DemoTables, s, now, user);
    }
  }

  /**
   * input_available_state: 1 once the machine's timer is done, else 3 when a
   * key is ready, else 0.
   */
  method InputAvailableState(sm: Machine, now: nat, keyReady: bool) returns (r: int)
    ensures r in Outcomes(INPUT_AVAILABLE)
    ensures r == SM_RETURN_DONE <==> sm.IsTimerDone(now)
    ensures r == SM_RETURN_SKIP_JUMP <==> !sm.IsTimerDone(now) && keyReady
  {
    if sm.IsTimerDone(now) {
      return SM_RETURN_DONE;
    }
    if keyReady {
      return SM_RETURN_SKIP_JUMP;
    }
    return SM_RETURN_REPEAT;
  }

  /** `fab_main_state`: the input and output machines and the ring buffer between them. */
  class FabMainState {
    var input: Machine
    var output: Machine
    var data: array<byte>
    var head: nat
    var tail: nat

    ghost predicate RingValid()
      reads this
    {
      data.Length == RING_SIZE && head < RING_SIZE && tail < RING_SIZE
    }

    ghost predicate Valid()
      reads this, input, output
    {
      RingValid()
      && input != output
      && Parked(input.cursor, GET_KEY_TABLE)
      && Parked(output.cursor, DISPLAY_KEY_TABLE)
    }

    /** The bytes in the ring, oldest first: from `tail` up to `head`, wrapping at the end of `data`. */
    ghost function Contents(): seq<byte>
      reads this, data
      requires RingValid()
    {
      if tail <= head then data[tail..head] else data[tail..] + data[..head]
    }

    lemma ContentsLength()
      requires RingValid()
      ensures |Contents()| == (head - tail) % RING_SIZE
      ensures |Contents()| < RING_SIZE
      ensures Contents() == [] <==> head == tail
    {
      ContentsSize();
    }

    /** The length of the contents, case by case: whether or not they wrap. */
    lemma ContentsSize()
      requires RingValid()
      ensures |Contents()| == if tail <= head then head - tail else RING_SIZE - tail + head
    {
    }

    /** The state main sets up: an empty ring and two stopped machines. */
    constructor ()
      ensures Valid() && Contents() == []
      ensures input.cursor.None? && output.cursor.None?
      ensures fresh(input) && fresh(output) && fresh(data)
    {
      input := new Machine();
      output := new Machine();
      data := new byte[RING_SIZE];
      head := 0;
      tail := 0;
    }

    /**
     * read_key_state: push the byte read onto the ring. With the ring full
     * (one slot is always kept free) the byte is dropped, nothing changes and
     * the result 1 routes to the buffer-full jump; otherwise the byte goes in
     * at `head` and the result 3 skips that jump.
     */
    method ReadKeyState(inByte: int) returns (r: int)
      requires Valid()
      modifies this`head, data
      ensures Valid() && data == old(data) && tail == old(tail)
      ensures r in Outcomes(READ_KEY)
      ensures r == SM_RETURN_DONE <==> |old(Contents())| == RING_SIZE - 1
      ensures r == SM_RETURN_DONE ==>
                head == old(head) && data[..] == old(data[..]) && Contents() == old(Contents())
      ensures r == SM_RETURN_SKIP_JUMP ==>
                old(data[..])[old(head) := Truncate8(inByte)] == data[..]
                && head == (old(head) + 1) % RING_SIZE
                && Contents() == old(Contents()) + [Truncate8(inByte)]
    {
      ContentsSize();
      var next := head + 1;
      if next >= RING_SIZE {
        next := 0;
      }
      if next == tail {
        return SM_RETURN_DONE;
      }
      ghost var before := Contents();
      data[head] := Truncate8(inByte);
      head := next;
      PushContents(old(data[..]), old(head), before, Truncate8(inByte));
      return SM_RETURN_SKIP_JUMP;
    }

    /** Writing at the old head and moving it on appends to the contents. */
    lemma PushContents(d: seq<byte>, h: nat, before: seq<byte>, b: byte)
      requires RingValid() && |d| == RING_SIZE && h < RING_SIZE
      requires head == (h + 1) % RING_SIZE && head != tail
      requires data[..] == d[h := b]
      requires before == if tail <= h then d[tail..h] else d[tail..] + d[..h]
      ensures Contents() == before + [b]
    {
      var d' := data[..];
      if tail <= h {
        if h + 1 < RING_SIZE {
          assert d'[tail..head] == d[tail..h] + [b];
        } else {
          assert d'[tail..] == d[tail..h] + [b];
          assert d'[..head] == [];
        }
      } else {
        assert d'[tail..] == d[tail..];
        assert d'[..head] == d[..h] + [b];
      }
    }

    /**
     * print_key_state: with the output machine's timer done, return 1 and
     * touch nothing; with the ring empty, return 0; otherwise take the oldest
     * byte, advance `tail` and return 1.
     */
    method PrintKeyState(now: nat) returns (r: int, out: Option<byte>)
      requires Valid()
      modifies this`tail
      ensures Valid() && head == old(head)
      ensures r in Outcomes(PRINT_KEY)
      ensures output.IsTimerDone(now) ==> r == SM_RETURN_DONE && out.None? && tail == old(tail)
      ensures !output.IsTimerDone(now) && old(Contents()) == [] ==>
                r == SM_RETURN_REPEAT && out.None? && tail == old(tail)
      ensures !output.IsTimerDone(now) && old(Contents()) != [] ==>
                r == SM_RETURN_DONE && out == Some(old(Contents())[0])
                && Contents() == old(Contents())[1..]
                && tail == (old(tail) + 1) % RING_SIZE
    {
      ContentsSize();
      if output.IsTimerDone(now) {
        return SM_RETURN_DONE, None;
      }
      if head == tail {
        return SM_RETURN_REPEAT, None;
      }
      var next := tail + 1;
      if next >= RING_SIZE {
        next := 0;
      }
      ghost var before := Contents();
      var outByte := data[tail];
      tail := next;
      PopContents(old(tail), before);
      return SM_RETURN_DONE, Some(outByte);
    }

    /** Moving `tail` past the oldest byte drops it from the contents. */
    lemma PopContents(t: nat, before: seq<byte>)
      requires RingValid() && t < RING_SIZE && t != head
      requires tail == (t + 1) % RING_SIZE
      requires before == if t <= head then data[t..head] else data[t..] + data[..head]
      ensures before != [] && before[0] == data[t] && Contents() == before[1..]
    {
      if t <= head {
        assert data[t..head][1..] == data[tail..head];
      } else if t + 1 < RING_SIZE {
        assert (data[t..] + data[..head])[1..] == data[tail..] + data[..head];
      } else {
        assert data[t..] == [data[t]];
        assert data[..head] == data[0..head];
      }
    }

    /**
     * One sm_run_state call on the input machine. The application state at
     * its cursor, if any, is run here, just before the engine, and its result
     * handed to the engine, as sm_run_state would call it. The byte is stored
     * exactly when read_key_state runs with room in the ring; otherwise the
     * call leaves unchanged whether the rest of the burst stores it.
     */
    method RunInputOnce(now: nat, keyReady: bool, inByte: int) returns (ret: int, user: int)
      requires Valid() && input.cursor.Some?
      modifies this`head, data, input
      ensures Valid() && tail == old(tail)
      ensures (ret, input.Fields()) == Dispatch(DemoTables, old(input.Fields()), now, user)
      ensures Designates(old(input.cursor).value, User(INPUT_AVAILABLE)) ==>
                user == if old(input.IsTimerDone(now)) then SM_RETURN_DONE
                        else if keyReady then SM_RETURN_SKIP_JUMP else SM_RETURN_REPEAT
      ensures Designates(old(input.cursor).value, User(READ_KEY)) ==>
                user == if |old(Contents())| == RING_SIZE - 1 then SM_RETURN_DONE else SM_RETURN_SKIP_JUMP
      ensures (!Designates(old(input.cursor).value, User(INPUT_AVAILABLE))
               && !Designates(old(input.cursor).value, User(READ_KEY))) ==> user == SM_RETURN_REPEAT
      ensures if Designates(old(input.cursor).value, User(READ_KEY)) && |old(Contents())| != RING_SIZE - 1
              then Contents() == old(Contents()) + [Truncate8(inByte)]
                   && ret > 0 && BurstBound(input.cursor.value) == 1
              else Contents() == old(Contents())
                   && (StoresKey(old(input.cursor), old(input.IsTimerDone(now)), keyReady, |old(Contents())| == RING_SIZE - 1)
                       <==> ret > 0 && StoresKey(input.cursor, input.IsTimerDone(now), keyReady, |old(Contents())| == RING_SIZE - 1))
      // What the burst loop needs: no abort, progress on a positive result,
      // and a resting machine on a zero one.
      ensures Continues(ret) && input.cursor.Some?
      ensures ret > 0 ==> BurstBound(input.cursor.value) < BurstBound(old(input.cursor).value)
      ensures ret == SM_RETURN_REPEAT ==> Resting(input.cursor.value)
    {
      var c := input.cursor.value;
      var e := DemoTables[c.table][c.index];
      ghost var s0 := input.Fields();
      ghost var before := Contents();
      ghost var full := |before| == RING_SIZE - 1;
      user := SM_RETURN_REPEAT;
      if e == Step(User(INPUT_AVAILABLE)) {
        user := InputAvailableState(input, now, keyReady);
      } else if e == Step(User(READ_KEY)) {
        user := ReadKeyState(inByte);
      }
      assert Contents() == if e == Step(User(READ_KEY)) && !full then before + [Truncate8(inByte)] else before;
      assert input.Fields() == s0;
      ghost var mid := Contents();
      ret := RunState(input, DemoTables, now, user);
      InputStep(s0, now, keyReady, full, user);
      assert Contents() == mid;
    }

    /**
     * One sm_run_state call on the output machine, print_key_state run as
     * RunInputOnce runs the input's states; `out` is the byte printed. A byte
     * is printed exactly when print_key_state runs with its timer not done
     * and the ring not empty; otherwise the call leaves unchanged whether the
     * rest of the burst prints one.
     */
    method RunOutputOnce(now: nat) returns (ret: int, user: int, out: Option<byte>)
      requires Valid() && output.cursor.Some?
      modifies this`tail, output
      ensures Valid() && head == old(head)
      ensures (ret, output.Fields()) == Dispatch(DemoTables, old(output.Fields()), now, user)
      ensures Designates(old(output.cursor).value, User(PRINT_KEY)) ==>
                user == if old(output.IsTimerDone(now)) || old(Contents()) != [] then SM_RETURN_DONE else SM_RETURN_REPEAT
      ensures !Designates(old(output.cursor).value, User(PRINT_KEY)) ==> user == SM_RETURN_REPEAT
      ensures if Designates(old(output.cursor).value, User(PRINT_KEY)) && !old(output.IsTimerDone(now)) && old(Contents()) != []
              then out == Some(old(Contents())[0]) && Contents() == old(Contents())[1..]
                   && ret > 0 && BurstBound(output.cursor.value) == 1
              else out.None? && Contents() == old(Contents())
                   && (PrintsKey(old(output.cursor), old(output.IsTimerDone(now)), old(Contents()) == [])
                       <==> ret > 0 && PrintsKey(output.cursor, output.IsTimerDone(now), old(Contents()) == []))
      ensures Continues(ret) && output.cursor.Some?
      ensures ret > 0 ==> BurstBound(output.cursor.value) < BurstBound(old(output.cursor).value)
      ensures ret == SM_RETURN_REPEAT ==> Resting(output.cursor.value)
    {
      var c := output.cursor.value;
      var e := DemoTables[c.table][c.index];
      ghost var s0 := output.Fields();
      ghost var before := Contents();
      ghost var empty := before == [];
      user := SM_RETURN_REPEAT;
      out := None;
      if e == Step(User(PRINT_KEY)) {
        user, out := PrintKeyState(now);
      }
      assert output.Fields() == s0;
      ghost var mid := Contents();
      ret := RunState(output, DemoTables, now, user);
      OutputStep(s0, now, empty, user);
      assert Contents() == mid;
    }

    /**
     * The input half of a pass of main's loop: restart the machine at the
     * head of get_key_table if it has stopped, then call sm_run_state while
     * the result is positive and the cursor is set. At most four calls are
     * made; the byte read is stored exactly when StoresKey holds of the
     * machine as the pass finds it, and the machine is left resting.
     */
    method InputBurst(now: nat, keyReady: bool, inByte: int) returns (steps: nat)
      requires Valid()
      modifies this`head, data, input
      ensures Valid() && tail == old(tail) && input.cursor.Some?
      ensures 1 <= steps <= 4
      ensures Resting(input.cursor.value)
      ensures Contents() == old(Contents())
                + if StoresKey(old(input.cursor), old(input.IsTimerDone(now)), keyReady, |old(Contents())| == RING_SIZE - 1)
                  then [Truncate8(inByte)] else []
    {
      ghost var initial := Contents();
      ghost var full := |initial| == RING_SIZE - 1;
      ghost var stores := StoresKey(input.cursor, input.IsTimerDone(now), keyReady, full);
      if input.cursor.None? {
        input.SetTable(GET_KEY_TABLE);
      }
      assert stores == StoresKey(input.cursor, input.IsTimerDone(now), keyReady, full);
      var ret, user := RunInputOnce(now, keyReady, inByte);
      steps := 1;
      while ret > 0 && input.cursor.Some?
        invariant Valid() && tail == old(tail) && input.cursor.Some?
        invariant 1 <= steps <= 4 && Continues(ret)
        invariant ret > 0 ==> steps + BurstBound(input.cursor.value) <= 4
        invariant ret == SM_RETURN_REPEAT ==> Resting(input.cursor.value)
        invariant Contents() == initial ==>
                    (stores <==> ret > 0 && StoresKey(input.cursor, input.IsTimerDone(now), keyReady, full))
        invariant Contents() != initial ==>
                    stores && Contents() == initial + [Truncate8(inByte)]
                    && (ret > 0 ==> BurstBound(input.cursor.value) == 1)
        decreases if ret > 0 then BurstBound(input.cursor.value) else 0
      {
        ghost var before := Contents();
        ret, user := RunInputOnce(now, keyReady, inByte);
        if Contents() != before {
          assert before == initial;
        }
        steps := steps + 1;
      }
    }

    /**
     * The output half of a pass of main's loop: restart the machine at the
     * head of display_key_table if it has stopped, then call sm_run_state
     * while the result is positive and the cursor is set. At most three
     * calls are made; the oldest byte is printed exactly when PrintsKey
     * holds of the machine as the pass finds it, and the machine is left
     * resting.
     */
    method OutputBurst(now: nat) returns (steps: nat, printed: seq<byte>)
      requires Valid()
      modifies this`tail, output
      ensures Valid() && head == old(head) && output.cursor.Some?
      ensures 1 <= steps <= 3
      ensures Resting(output.cursor.value)
      ensures printed == if PrintsKey(old(output.cursor), old(output.IsTimerDone(now)), old(Contents()) == [])
                         then [old(Contents())[0]] else []
      ensures Contents() == old(Contents())[|printed|..]
    {
      ghost var initial := Contents();
      ghost var empty := initial == [];
      ghost var prints := PrintsKey(output.cursor, output.IsTimerDone(now), empty);
      if output.cursor.None? {
        output.SetTable(DISPLAY_KEY_TABLE);
      }
      assert prints == PrintsKey(output.cursor, output.IsTimerDone(now), empty);
      var ret, user, out := RunOutputOnce(now);
      printed := if out.Some? then [out.value] else [];
      steps := 1;
      while ret > 0 && output.cursor.Some?
        invariant Valid() && head == old(head) && output.cursor.Some?
        invariant 1 <= steps <= 3 && Continues(ret)
        invariant ret > 0 ==> steps + BurstBound(output.cursor.value) <= 3
        invariant ret == SM_RETURN_REPEAT ==> Resting(output.cursor.value)
        invariant printed == [] ==>
                    Contents() == initial
                    && (prints <==> ret > 0 && PrintsKey(output.cursor, output.IsTimerDone(now), empty))
        invariant printed != [] ==>
                    prints && printed == [initial[0]] && Contents() == initial[1..]
                    && (ret > 0 ==> BurstBound(output.cursor.value) == 1)
        decreases if ret > 0 then BurstBound(output.cursor.value) else 0
      {
        ret, user, out := RunOutputOnce(now);
        if out.Some? {
          printed := [out.value];
        }
        steps := steps + 1;
      }
    }

    /**
     * One pass of main's endless loop, at tick `now`: the input burst, then
     * the output burst. The byte read joins the ring when StoresKey holds of
     * the input machine; the oldest byte of the ring so extended is printed
     * when PrintsKey holds of the output machine. Bytes leave the ring in the
     * order they entered it.
     */
    method MainLoopPass(now: nat, keyReady: bool, inByte: int) returns (printed: seq<byte>)
      requires Valid()
      modifies this`head, this`tail, data, input, output
      ensures Valid() && input.cursor.Some? && output.cursor.Some?
      ensures Resting(input.cursor.value) && Resting(output.cursor.value)
      ensures var mid := old(Contents())
                + if StoresKey(old(input.cursor), old(input.IsTimerDone(now)), keyReady, |old(Contents())| == RING_SIZE - 1)
                  then [Truncate8(inByte)] else [];
              && printed == (if PrintsKey(old(output.cursor), old(output.IsTimerDone(now)), mid == []) then [mid[0]] else [])
              && printed + Contents() == mid
    {
      ghost var outState := output.Fields();
      var inSteps := InputBurst(now, keyReady, inByte);
      ghost var mid := Contents();
      assert output.Fields() == outState;
      var outSteps;
      outSteps, printed := OutputBurst(now);
      assert Contents() == mid[|printed|..];
      assert printed + mid[|printed|..] == mid by {
        if printed != [] {
          assert printed == [mid[0]];
        }
      }
    }
  }
}
