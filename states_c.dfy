/*
 * The engine of states.c: the three built-in state functions and
 * sm_run_state, which runs the one state the cursor designates and moves the
 * cursor by the signed result. Alongside, a value-level specification of one
 * call (Dispatch), the closure of a set of tables under every result its
 * states can return, and a run over a sequence of tick readings.
 */
module Engine {
  import opened States

  /** The cursor designates a slot inside its table. */
  predicate InTable(tables: seq<Table>, c: Cursor) {
    c.table < |tables| && c.index < |tables[c.table]|
  }

  /** The cursor designates a state function, never an operand nor a null slot. */
  predicate OnStep(tables: seq<Table>, c: Cursor) {
    InTable(tables, c) && tables[c.table][c.index].Step?
  }

  /** The slot after the state at `c` holds the operand that state reads, if it reads one. */
  predicate OperandPresent(tables: seq<Table>, c: Cursor)
    requires InTable(tables, c)
  {
    var t := tables[c.table];
    match t[c.index]
    case Step(DelayTicks) => c.index + 1 < |t| && t[c.index + 1].Imm?
    case Step(JumpTable) =>
      c.index + 1 < |t| && t[c.index + 1].Target? && t[c.index + 1].table < |tables|
    case _ => true
  }

  /**
   * A cursor sm_run_state can be called with: NULL, or inside its table on a
   * state function or a NULL slot (never on a non-zero operand, which C
   * would call as a function), with the operand of that state present.
   * Anything else has no defined meaning in C.
   */
  predicate Runnable(tables: seq<Table>, cursor: Option<Cursor>) {
    cursor.None? ||
    (InTable(tables, cursor.value)
     && (!IsOperand(tables[cursor.value.table][cursor.value.index]) || NullSlot(tables[cursor.value.table][cursor.value.index]))
     && OperandPresent(tables, cursor.value))
  }

  /** Where the state at `c` leaves the cursor before the engine adds its result. */
  function HandlerCursor(tables: seq<Table>, c: Cursor): (c': Cursor)
    requires OnStep(tables, c) && OperandPresent(tables, c)
    ensures c'.table == c.table || tables[c.table][c.index] == Step(JumpTable)
  {
    match tables[c.table][c.index].handler
    case DelayTicks => At(c.table, c.index + 1)
    case JumpTable => At(tables[c.table][c.index + 1].table, 0)
    case _ => c
  }

  /** What the state `h` returns; `user` is what an application state returns. */
  function HandlerResult(h: Handler, s: State, now: nat, user: int): (r: int) {
    match h
    case DelayTicks => SM_RETURN_DONE
    case WaitTicks => if TimerDone(s.start, s.delay, now) then SM_RETURN_DONE else SM_RETURN_REPEAT
    case JumpTable => SM_RETURN_REPEAT
    case User(_) => user
  }

  /** Move a cursor `n` slots forward in its table. */
  function Advance(c: Cursor, n: nat): (c': Cursor) {
    At(c.table, c.index + n)
  }

  /**
   * One call of sm_run_state on a machine whose fields are `s`, at tick
   * `now`; `user` is the result of the application state if that is what
   * the cursor designates. Yields the result and the new fields.
   */
  function Dispatch(tables: seq<Table>, s: State, now: nat, user: int): (out: (int, State))
    requires Runnable(tables, s.cursor)
    // A NULL cursor or a null slot: -1, and no field is written.
    ensures s.cursor.None? ==> out == (SM_RETURN_ERROR, s)
    ensures s.cursor.Some? && NullSlot(tables[s.cursor.value.table][s.cursor.value.index]) ==> out == (SM_RETURN_ERROR, s)
    // Otherwise the result is the state's, unchanged.
    ensures s.cursor.Some? && OnStep(tables, s.cursor.value) ==>
              out.0 == HandlerResult(tables[s.cursor.value.table][s.cursor.value.index].handler, s, now, user)
    // A negative result of a state aborts: the cursor becomes NULL, the timer stays.
    ensures s.cursor.Some? && OnStep(tables, s.cursor.value) && !Continues(out.0) ==>
              out.1.cursor.None? && out.1.start == s.start && out.1.delay == s.delay
    // Only the delay state writes the timer.
    ensures s.cursor.Some? && tables[s.cursor.value.table][s.cursor.value.index] != Step(DelayTicks) ==>
              out.1.start == s.start && out.1.delay == s.delay
    // A non-negative result of a state that leaves the cursor alone moves it that many slots.
    ensures s.cursor.Some? && Continues(out.0) && OnStep(tables, s.cursor.value)
            && tables[s.cursor.value.table][s.cursor.value.index].handler !in {DelayTicks, JumpTable} ==>
              out.1.cursor == Some(Advance(s.cursor.value, out.0))
  {
    match s.cursor
    case None => (SM_RETURN_ERROR, s)
    case Some(c) =>
      match tables[c.table][c.index]
      case Step(h) =>
        var r := HandlerResult(h, s, now, user);
        var armed :=
          if h == DelayTicks
          then s.(start := Truncate16(now), delay := Truncate16(tables[c.table][c.index + 1].value))
          else s;
        if Continues(r)
        then (r, armed.(cursor := Some(Advance(HandlerCursor(tables, c), r))))
        else (r, armed.(cursor := None))
      case _ => (SM_RETURN_ERROR, s)
  }

  /** The delay state consumes its operand: the net move is two slots, onto the slot after the tick count, with the timer armed at `now`. */
  lemma DelayStep(tables: seq<Table>, s: State, now: nat, user: int)
    requires Runnable(tables, s.cursor) && s.cursor.Some?
    requires tables[s.cursor.value.table][s.cursor.value.index] == Step(DelayTicks)
    ensures var c := s.cursor.value;
            Dispatch(tables, s, now, user)
            == (SM_RETURN_DONE, State(Some(Advance(c, 2)), Truncate16(now), Truncate16(tables[c.table][c.index + 1].value)))
  {
  }

  /** The jump state moves the cursor to the first slot of the table named by its operand and returns 0; the timer is untouched. */
  lemma JumpStep(tables: seq<Table>, s: State, now: nat, user: int)
    requires Runnable(tables, s.cursor) && s.cursor.Some?
    requires tables[s.cursor.value.table][s.cursor.value.index] == Step(JumpTable)
    ensures var c := s.cursor.value;
            Dispatch(tables, s, now, user)
            == (SM_RETURN_REPEAT, s.(cursor := Some(At(tables[c.table][c.index + 1].table, 0))))
  {
  }

  /** The wait state repeats, writing nothing, until the timer is done, and then moves on by one slot. */
  lemma WaitStep(tables: seq<Table>, s: State, now: nat, user: int)
    requires Runnable(tables, s.cursor) && s.cursor.Some?
    requires tables[s.cursor.value.table][s.cursor.value.index] == Step(WaitTicks)
    ensures Dispatch(tables, s, now, user)
            == if TimerDone(s.start, s.delay, now)
               then (SM_RETURN_DONE, s.(cursor := Some(Advance(s.cursor.value, 1))))
               else (SM_RETURN_REPEAT, s)
  {
  }

  /**
   * An application state's result is passed through: a non-negative one moves
   * the cursor that many slots and writes nothing else; a negative one clears
   * the cursor and leaves the timer.
   */
  lemma UserStep(tables: seq<Table>, s: State, now: nat, id: nat, user: int)
    requires Runnable(tables, s.cursor) && s.cursor.Some?
    requires tables[s.cursor.value.table][s.cursor.value.index] == Step(User(id))
    ensures Dispatch(tables, s, now, user)
            == if Continues(user)
               then (user, s.(cursor := Some(Advance(s.cursor.value, user))))
               else (user, s.(cursor := None))
  {
  }

  /**
   * A state returning SkipJumps(j) moves the cursor 1 + 2j slots: past
   * itself and j jumps. When a run of SM_JUMP entries follows the state,
   * JumpSlots says this lands on jump j, or just past the run when j is its
   * length.
   */
  lemma SkipStep(tables: seq<Table>, s: State, now: nat, id: nat, j: nat)
    requires Runnable(tables, s.cursor) && s.cursor.Some?
    requires tables[s.cursor.value.table][s.cursor.value.index] == Step(User(id))
    ensures Dispatch(tables, s, now, SkipJumps(j)).1.cursor
            == Some(At(s.cursor.value.table, s.cursor.value.index + 1 + 2 * j))
  {
    UserStep(tables, s, now, id, SkipJumps(j));
  }

  /** The j-th jump of a run of SM_JUMP entries laid out in a table from slot `from`. */
  lemma JumpSlots(t: Table, from: nat, dests: seq<nat>, j: nat)
    requires from + 2 * |dests| <= |t| && t[from .. from + 2 * |dests|] == Jumps(dests) && j < |dests|
    ensures t[from + 2 * j] == Step(JumpTable) && t[from + 2 * j + 1] == Target(dests[j])
  {
    var run := t[from .. from + 2 * |dests|];
    JumpsLayout(dests, j);
    assert t[from + 2 * j] == run[2 * j];
    assert t[from + 2 * j + 1] == run[2 * j + 1];
  }

  /** The results state `h` can return; `outcomes` gives those of each application state. */
  ghost function Possible(h: Handler, outcomes: nat -> set<int>): set<int> {
    match h
    case DelayTicks => {SM_RETURN_DONE}
    case WaitTicks => {SM_RETURN_REPEAT, SM_RETURN_DONE}
    case JumpTable => {SM_RETURN_REPEAT}
    case User(id) => outcomes(id)
  }

  /**
   * The tables are closed under the results their states can return: every
   * state has its operand, and from every state each possible non-negative
   * result lands the cursor on a state again.
   */
  ghost predicate Closed(tables: seq<Table>, outcomes: nat -> set<int>) {
    forall c: Cursor | OnStep(tables, c) ::
      OperandPresent(tables, c)
      && forall r | r in Possible(tables[c.table][c.index].handler, outcomes) && r >= 0 ::
           OnStep(tables, Advance(HandlerCursor(tables, c), r))
  }

  /** In closed tables, a machine on a state stays on a state or is aborted. */
  lemma ClosedKeepsOnStep(tables: seq<Table>, outcomes: nat -> set<int>, s: State, now: nat, user: int)
    requires Closed(tables, outcomes)
    requires s.cursor.Some? && OnStep(tables, s.cursor.value)
    requires tables[s.cursor.value.table][s.cursor.value.index].handler.User? ==>
               user in outcomes(tables[s.cursor.value.table][s.cursor.value.index].handler.id)
    ensures var s' := Dispatch(tables, s, now, user).1;
            s'.cursor.None? || OnStep(tables, s'.cursor.value)
  {
    var c := s.cursor.value;
    var h := tables[c.table][c.index].handler;
    assert HandlerResult(h, s, now, user) in Possible(h, outcomes);
  }

  /** In closed tables whose application states never return a negative result, a machine on a state is never aborted. */
  lemma ClosedNeverAborts(tables: seq<Table>, outcomes: nat -> set<int>, s: State, now: nat, user: int)
    requires Closed(tables, outcomes)
    requires forall id, r | r in outcomes(id) :: r >= 0
    requires s.cursor.Some? && OnStep(tables, s.cursor.value)
    requires tables[s.cursor.value.table][s.cursor.value.index].handler.User? ==>
               user in outcomes(tables[s.cursor.value.table][s.cursor.value.index].handler.id)
    ensures var s' := Dispatch(tables, s, now, user).1;
            s'.cursor.Some? && OnStep(tables, s'.cursor.value)
  {
    var c := s.cursor.value;
    var h := tables[c.table][c.index].handler;
    assert HandlerResult(h, s, now, user) in Possible(h, outcomes);
    ClosedKeepsOnStep(tables, outcomes, s, now, user);
  }

  /**
   * What the application states would return on one call: `app(id)` is the
   * result of User(id), should the cursor be on it.
   */
  type Answers = nat -> int

  /** The `user` argument of a call: the answer of the application state under the cursor, if there is one. */
  function UserResult(tables: seq<Table>, s: State, app: Answers): (user: int)
    requires Runnable(tables, s.cursor)
  {
    if s.cursor.Some? && tables[s.cursor.value.table][s.cursor.value.index].Step?
       && tables[s.cursor.value.table][s.cursor.value.index].handler.User?
    then app(tables[s.cursor.value.table][s.cursor.value.index].handler.id)
    else SM_RETURN_REPEAT
  }

  /**
   * Successive calls of sm_run_state at the ticks `nows`, the application
   * states answering on call i as `apps[i]` says. The run ends early if the
   * cursor leaves the slots a call may read, since C gives that no meaning.
   */
  function Trace(tables: seq<Table>, s: State, nows: seq<nat>, apps: seq<Answers>): (out: (seq<int>, State))
    requires Runnable(tables, s.cursor) && |apps| == |nows|
    ensures |out.0| <= |nows|
    decreases |nows|
  {
    if nows == [] then ([], s)
    else
      var (r, s1) := Dispatch(tables, s, nows[0], UserResult(tables, s, apps[0]));
      if Runnable(tables, s1.cursor)
      then var (rs, s2) := Trace(tables, s1, nows[1..], apps[1..]); ([r] + rs, s2)
      else ([r], s1)
  }

  /** `n` copies of the result code `r`. */
  function Repeat(r: int, n: nat): (rs: seq<int>)
    ensures |rs| == n && forall i | 0 <= i < n :: rs[i] == r
  {
    if n == 0 then [] else [r] + Repeat(r, n - 1)
  }

  /**
   * A machine waiting on a timer armed at `t0`: every call while fewer than
   * `delay` ticks have elapsed (modulo 2^16) returns 0 and changes nothing;
   * the first call where the elapsed time reaches `delay` returns 1 and moves
   * past the wait.
   */
  lemma {:induction false} WaitUntilExpiry(tables: seq<Table>, s: State, t0: nat, nows: seq<nat>, apps: seq<Answers>)
    requires Runnable(tables, s.cursor) && s.cursor.Some?
    requires tables[s.cursor.value.table][s.cursor.value.index] == Step(WaitTicks)
    requires s.start == Truncate16(t0)
    requires |nows| > 0 && |apps| == |nows|
    requires forall i | 0 <= i < |nows| - 1 :: !Elapsed(t0, s.delay, nows[i])
    requires Elapsed(t0, s.delay, nows[|nows| - 1])
    ensures Trace(tables, s, nows, apps)
            == (Repeat(SM_RETURN_REPEAT, |nows| - 1) + [SM_RETURN_DONE], s.(cursor := Some(Advance(s.cursor.value, 1))))
  {
    var user := UserResult(tables, s, apps[0]);
    TimerElapsedSince(t0, s.start, s.delay, nows[0]);
    WaitStep(tables, s, nows[0], user);
    var s' := s.(cursor := Some(Advance(s.cursor.value, 1)));
    if |nows| == 1 {
      assert Elapsed(t0, s.delay, nows[0]);
      assert Dispatch(tables, s, nows[0], user) == (SM_RETURN_DONE, s');
      if Runnable(tables, s'.cursor) {
        TraceFirst(tables, s, nows, apps);
        assert nows[1..] == [] && apps[1..] == [];
        assert Trace(tables, s', nows[1..], apps[1..]) == ([], s');
        assert Trace(tables, s, nows, apps) == ([SM_RETURN_DONE] + [], s');
        assert [SM_RETURN_DONE] + [] == [SM_RETURN_DONE];
      } else {
        assert Trace(tables, s, nows, apps) == ([SM_RETURN_DONE], s');
      }
      assert Repeat(SM_RETURN_REPEAT, |nows| - 1) == [];
      assert Repeat(SM_RETURN_REPEAT, |nows| - 1) + [SM_RETURN_DONE] == [SM_RETURN_DONE];
    } else {
      TraceFirst(tables, s, nows, apps);
      assert !Elapsed(t0, s.delay, nows[0]);
      assert Dispatch(tables, s, nows[0], user) == (SM_RETURN_REPEAT, s);
      var rest := nows[1..];
      assert rest[|rest| - 1] == nows[|nows| - 1];
      WaitUntilExpiry(tables, s, t0, rest, apps[1..]);
      var zeros := Repeat(SM_RETURN_REPEAT, |rest| - 1);
      assert Trace(tables, s, nows, apps) == ([SM_RETURN_REPEAT] + (zeros + [SM_RETURN_DONE]), s');
      assert Repeat(SM_RETURN_REPEAT, |nows| - 1) == [SM_RETURN_REPEAT] + zeros;
      assert [SM_RETURN_REPEAT] + (zeros + [SM_RETURN_DONE]) == ([SM_RETURN_REPEAT] + zeros) + [SM_RETURN_DONE];
    }
  }

  /** The first call of a run, and the run of the remaining ticks from where it left the machine. */
  lemma TraceFirst(tables: seq<Table>, s: State, nows: seq<nat>, apps: seq<Answers>)
    requires Runnable(tables, s.cursor) && nows != [] && |apps| == |nows|
    requires Runnable(tables, Dispatch(tables, s, nows[0], UserResult(tables, s, apps[0])).1.cursor)
    ensures var (r, s1) := Dispatch(tables, s, nows[0], UserResult(tables, s, apps[0]));
            Trace(tables, s, nows, apps)
            == ([r] + Trace(tables, s1, nows[1..], apps[1..]).0, Trace(tables, s1, nows[1..], apps[1..]).1)
  {
  }

  lemma TimerElapsedSince(t0: nat, start: u16, delay: u16, now: nat)
    requires start == Truncate16(t0)
    ensures TimerDone(start, delay, now) <==> Elapsed(t0, delay, now)
  {
    TimerDoneElapsed(start, delay, now);
    var q := t0 / TICK_PERIOD;
    assert now - start as int == (now - t0) + q * TICK_PERIOD;
    ModShift(now - t0, q);
  }

  /**
   * SM_DELAY_MS at the cursor: the first call arms the timer at `t0` and
   * lands on the wait state, which then holds the machine until the delay
   * has elapsed.
   */
  lemma DelayThenWait(tables: seq<Table>, s: State, t0: nat, nows: seq<nat>, ms: int, apps: seq<Answers>)
    requires Runnable(tables, s.cursor) && s.cursor.Some?
    requires var c := s.cursor.value;
             c.index + 3 <= |tables[c.table]|
             && tables[c.table][c.index .. c.index + 3] == DelayMs(ms)
    requires |nows| > 0 && |apps| == |nows| + 1
    requires forall i | 0 <= i < |nows| - 1 :: !Elapsed(t0, Truncate16(ms), nows[i])
    requires Elapsed(t0, Truncate16(ms), nows[|nows| - 1])
    ensures var c := s.cursor.value;
            Trace(tables, s, [t0] + nows, apps)
            == ([SM_RETURN_DONE] + Repeat(SM_RETURN_REPEAT, |nows| - 1) + [SM_RETURN_DONE],
                State(Some(Advance(c, 3)), Truncate16(t0), Truncate16(ms)))
  {
    var c := s.cursor.value;
    var t := tables[c.table];
    assert t[c.index] == DelayMs(ms)[0] && t[c.index + 1] == DelayMs(ms)[1] && t[c.index + 2] == DelayMs(ms)[2];
    DelayStep(tables, s, t0, UserResult(tables, s, apps[0]));
    var s1 := Dispatch(tables, s, t0, UserResult(tables, s, apps[0])).1;
    assert s1 == State(Some(Advance(c, 2)), Truncate16(t0), Truncate16(ms));
    assert Runnable(tables, s1.cursor);
    TraceFirst(tables, s, [t0] + nows, apps);
    assert ([t0] + nows)[1..] == nows;
    WaitUntilExpiry(tables, s1, t0, nows, apps[1..]);
    var rest := Repeat(SM_RETURN_REPEAT, |nows| - 1) + [SM_RETURN_DONE];
    assert Trace(tables, s, [t0] + nows, apps) == ([SM_RETURN_DONE] + rest, State(Some(Advance(c, 3)), Truncate16(t0), Truncate16(ms)));
    assert [SM_RETURN_DONE] + rest == [SM_RETURN_DONE] + Repeat(SM_RETURN_REPEAT, |nows| - 1) + [SM_RETURN_DONE];
  }

  /** Every application state the tables hold answers with one of its possible results. */
  ghost predicate Answerable(tables: seq<Table>, outcomes: nat -> set<int>, app: Answers) {
    forall c: Cursor | OnStep(tables, c) && tables[c.table][c.index].handler.User? ::
      app(tables[c.table][c.index].handler.id) in outcomes(tables[c.table][c.index].handler.id)
  }

  /**
   * In closed tables whose application states never return a negative
   * result, a run of any length, whatever those states answer from call to
   * call, keeps the machine running and its cursor on a state.
   */
  lemma {:induction false} ClosedTraceRuns(tables: seq<Table>, outcomes: nat -> set<int>, s: State, nows: seq<nat>, apps: seq<Answers>)
    requires Closed(tables, outcomes)
    requires forall id, r | r in outcomes(id) :: r >= 0
    requires |apps| == |nows| && forall i | 0 <= i < |apps| :: Answerable(tables, outcomes, apps[i])
    requires s.cursor.Some? && OnStep(tables, s.cursor.value)
    ensures var out := Trace(tables, s, nows, apps);
            |out.0| == |nows| && (forall i | 0 <= i < |out.0| :: Continues(out.0[i]))
            && out.1.cursor.Some? && OnStep(tables, out.1.cursor.value)
    decreases |nows|
  {
    if nows != [] {
      var c := s.cursor.value;
      var h := tables[c.table][c.index].handler;
      var user := UserResult(tables, s, apps[0]);
      assert Answerable(tables, outcomes, apps[0]);
      assert h.User? ==> user in outcomes(h.id);
      ClosedNeverAborts(tables, outcomes, s, nows[0], user);
      var s1 := Dispatch(tables, s, nows[0], user).1;
      ClosedTraceRuns(tables, outcomes, s1, nows[1..], apps[1..]);
    }
  }

  /** sm_delay_ticks_state: step onto the tick count, arm the timer with it and return 1; with a NULL cursor return 0. */
  method DelayTicksState(sm: Machine, tables: seq<Table>, now: nat) returns (r: int)
    requires sm.cursor.Some? ==>
               var c := sm.cursor.value;
               c.table < |tables| && c.index + 1 < |tables[c.table]| && tables[c.table][c.index + 1].Imm?
    modifies sm
    ensures old(sm.cursor).None? ==> r == SM_RETURN_REPEAT && sm.Fields() == old(sm.Fields())
    ensures old(sm.cursor).Some? ==>
              var c := old(sm.cursor).value;
              r == SM_RETURN_DONE
              && sm.cursor == Some(Advance(c, 1))
              && sm.startTimer == Truncate16(now)
              && sm.delay == Truncate16(tables[c.table][c.index + 1].value)
  {
    if sm.cursor.Some? {
      var c := sm.cursor.value;
      sm.cursor := Some(Advance(c, 1));
      var ticks := tables[c.table][c.index + 1].value;
      sm.StartTimer(now, ticks);
      return SM_RETURN_DONE;
    }
    return SM_RETURN_REPEAT;
  }

  /** sm_wait_ticks_state: 1 once the timer is done, 0 before; reads the machine only. */
  method WaitTicksState(sm: Machine, now: nat) returns (r: int)
    ensures r == SM_RETURN_DONE || r == SM_RETURN_REPEAT
    ensures r == SM_RETURN_DONE <==> TimerDone(sm.startTimer, sm.delay, now)
  {
    if sm.IsTimerDone(now) {
      return SM_RETURN_DONE;
    }
    return SM_RETURN_REPEAT;
  }

  /** sm_jump_table_state: step onto the operand, then point at the first slot of the table it names; return 0. */
  method JumpTableState(sm: Machine, tables: seq<Table>) returns (r: int)
    requires sm.cursor.Some?
    requires var c := sm.cursor.value;
             c.table < |tables| && c.index + 1 < |tables[c.table]| && tables[c.table][c.index + 1].Target?
    modifies sm
    ensures r == SM_RETURN_REPEAT
    ensures var c := old(sm.cursor).value;
            sm.cursor == Some(At(tables[c.table][c.index + 1].table, 0))
    ensures sm.startTimer == old(sm.startTimer) && sm.delay == old(sm.delay)
  {
    var c := sm.cursor.value;
    sm.cursor := Some(Advance(c, 1));
    var operand := sm.cursor.value;
    sm.cursor := Some(At(tables[operand.table][operand.index].table, 0));
    return SM_RETURN_REPEAT;
  }

  /**
   * sm_run_state: with no machine, a NULL cursor or a null slot return -1
   * and write nothing; otherwise run the state at the cursor once, return its
   * result, and move the cursor by it, or clear the cursor if it is
   * negative. `user` is the result of the application state when the cursor
   * is on one; the caller runs that state.
   */
  method RunState(sm: Machine?, tables: seq<Table>, now: nat, user: int) returns (result: int)
    requires sm != null ==> Runnable(tables, sm.cursor)
    modifies sm
    ensures sm == null ==> result == SM_RETURN_ERROR
    ensures sm != null ==> (result, sm.Fields()) == Dispatch(tables, old(sm.Fields()), now, user)
  {
    result := SM_RETURN_ERROR;
    if sm != null && sm.cursor.Some? {
      var c := sm.cursor.value;
      var e := tables[c.table][c.index];
      if e.Step? {
        ghost var s0 := sm.Fields();
        match e.handler {
          case DelayTicks =>
            result := DelayTicksState(sm, tables, now);
          case WaitTicks =>
            result := WaitTicksState(sm, now);
          case JumpTable =>
            result := JumpTableState(sm, tables);
          case User(_) =>
            result := user;
        }
        if result >= 0 {
          sm.cursor := Some(Advance(sm.cursor.value, result));
        } else {
          sm.cursor := None;
        }
        assert (result, sm.Fields()) == Dispatch(tables, s0, now, user);
      }
    }
  }
}
