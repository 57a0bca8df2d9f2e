/**
 The AT parser timeout under the recursive lock.  API threads and the event thread step in any
 order; what each call does to the lock and to `_at_timeout` is its trace.
 */
module LockDiscipline {
  import opened Bytes

  datatype Instr =
    | Lock
    | Unlock
    | Save            // at_timeout = _at_timeout
    | Set(v: int)     // at_set_timeout(v)
    | Restore         // at_set_timeout(at_timeout)
    | Other

  /** A thread: the instructions it has still to run and its local copy of the timeout. */
  datatype Thread = Thread(rest: seq<Instr>, saved: int)

  datatype System = System(threads: seq<Thread>, owner: Option<nat>, depth: nat, timeout: int)

  /** Thread `i` can run its next instruction; only the lock makes it wait. */
  predicate CanStep(s: System, i: nat)
  {
    && i < |s.threads| && s.threads[i].rest != []
    && (s.threads[i].rest[0].Lock? ==> s.owner in {None, Some(i)})
  }

  function StepOf(s: System, i: nat): System
    requires CanStep(s, i)
  {
    var t := s.threads[i];
    var next := t.(rest := t.rest[1..]);
    var s' := s.(threads := s.threads[i := next]);
    match t.rest[0]
    case Lock => s'.(owner := Some(i), depth := s.depth + 1)
    case Unlock =>
      if s.owner != Some(i) || s.depth == 0 then s'
      else if s.depth == 1 then s'.(owner := None, depth := 0)
      else s'.(depth := s.depth - 1)
    case Save => s'.(threads := s.threads[i := next.(saved := s.timeout)])
    case Set(v) => s'.(timeout := v)
    case Restore => s'.(timeout := t.saved)
    case Other => s'
  }

  ghost predicate Runs(s: System, schedule: seq<nat>, s': System)
    decreases |schedule|
  {
    if schedule == [] then s' == s
    else CanStep(s, schedule[0]) && Runs(StepOf(s, schedule[0]), schedule[1..], s')
  }

  ghost predicate Reaches(s: System, s': System)
  {
    exists schedule :: Runs(s, schedule, s')
  }

  // ---------------------------------------------------------------- the discipline

  /** Run alone from lock depth `held`, the instructions touch the timeout only under the lock,
      give it the value `t0` whenever they let go of the lock, and end without it. */
  predicate Restores(p: seq<Instr>, held: nat, timeout: int, saved: int, t0: int)
    decreases |p|
  {
    if p == [] then held == 0
    else
      match p[0]
      case Lock => Restores(p[1..], held + 1, if held == 0 then t0 else timeout, saved, t0)
      case Unlock => held > 0 && (held == 1 ==> timeout == t0) && Restores(p[1..], held - 1, timeout, saved, t0)
      case Save => held > 0 && Restores(p[1..], held, timeout, timeout, t0)
      case Set(v) => held > 0 && Restores(p[1..], held, v, saved, t0)
      case Restore => held > 0 && Restores(p[1..], held, saved, saved, t0)
      case Other => Restores(p[1..], held, timeout, saved, t0)
  }

  ghost predicate Disciplined(p: seq<Instr>, t0: int)
  {
    forall saved: int :: Restores(p, 0, t0, saved, t0)
  }

  predicate Holds(s: System, i: nat)
  {
    s.owner == Some(i)
  }

  predicate InOrder(s: System, t0: int)
  {
    && (s.owner == None <==> s.depth == 0)
    && (s.owner == None ==> s.timeout == t0)
    && (s.owner.Some? ==> s.owner.value < |s.threads|)
    && forall i :: 0 <= i < |s.threads| ==>
         Restores(s.threads[i].rest, if Holds(s, i) then s.depth else 0,
                  if Holds(s, i) then s.timeout else t0, s.threads[i].saved, t0)
  }

  lemma StepKeepsOrder(s: System, i: nat, t0: int)
    requires InOrder(s, t0) && CanStep(s, i)
    ensures InOrder(StepOf(s, i), t0)
  {
  }

  /** Whatever the interleaving, a free lock has depth zero and finds the timeout as constructed. */
  lemma {:induction false} TimeoutRestoredWhenFree(s: System, schedule: seq<nat>, s': System, t0: int)
    requires InOrder(s, t0) && Runs(s, schedule, s')
    ensures s'.owner == None ==> s'.depth == 0 && s'.timeout == t0
    ensures InOrder(s', t0)
    decreases |schedule|
  {
    if schedule != [] {
      StepKeepsOrder(s, schedule[0], t0);
      TimeoutRestoredWhenFree(StepOf(s, schedule[0]), schedule[1..], s', t0);
    }
  }

  // ---------------------------------------------------------------- the calls

  function Repeat(p: seq<Instr>, n: nat): seq<Instr>
  {
    if n == 0 then [] else p + Repeat(p, n - 1)
  }

  /** A timeout set for a while inside a critical section. */
  function Temporary(v: int): seq<Instr>
  {
    [Set(v), Other, Restore]
  }

  /** Every attempt at a profile saves the timeout afresh and may activate several times. */
  function Attempts(counts: seq<nat>): seq<Instr>
  {
    if counts == [] then [] else [Other, Save] + Repeat(Temporary(30000), counts[0]) + Attempts(counts[1..])
  }

  datatype Call =
    | EventTurn
    | Receive(turns: nat)
    | GetHostByName
    | PowerUp(retries: nat)
    | Register(searching: bool, registered: bool)
    | ConnectStack(activations: seq<nat>)
    | Simple(nesting: nat)

  /** Calls that take the lock and call one another without touching the timeout. */
  function Locked(nesting: nat): seq<Instr>
  {
    if nesting == 0 then [Lock, Other, Unlock] else [Lock, Other] + (Locked(nesting - 1) + [Other, Unlock])
  }

  function Trace(c: Call): seq<Instr>
  {
    match c
    case EventTurn => [Lock, Save] + Temporary(10) + [Unlock]
    case Receive(turns) => Repeat([Lock, Save] + Temporary(1000) + [Unlock], turns)
    case GetHostByName => [Lock, Save] + Temporary(60000) + [Unlock]
    case PowerUp(retries) => [Lock, Save] + (Repeat(Temporary(1000), retries) + [Other, Unlock])
    case Register(searching, registered) =>
      [Lock, Save, Other] + (Repeat(Temporary(1000), if searching then if registered then 2 else 1 else 0) + [Unlock])
    case ConnectStack(activations) => [Lock, Other] + (Attempts(activations) + [Unlock])
    case Simple(nesting) => Locked(nesting)
  }

  lemma {:induction false} LockedThen(nesting: nat, tail: seq<Instr>, held: nat, timeout: int, saved: int, t0: int)
    requires Restores(tail, held, timeout, saved, t0) && (held == 0 ==> timeout == t0)
    ensures Restores(Locked(nesting) + tail, held, timeout, saved, t0)
  {
    var p := Locked(nesting) + tail;
    if nesting == 0 {
      assert p[1..] == [Other, Unlock] + tail && p[1..][1..] == [Unlock] + tail && p[1..][1..][1..] == tail;
    } else {
      var rest := [Other, Unlock] + tail;
      assert rest[1..] == [Unlock] + tail && rest[1..][1..] == tail;
      LockedThen(nesting - 1, rest, held + 1, timeout, saved, t0);
      assert p[1..] == [Other] + (Locked(nesting - 1) + rest) && p[1..][1..] == Locked(nesting - 1) + rest;
    }
  }

  lemma {:induction false} RestoresConcat(a: seq<Instr>, b: seq<Instr>, held: nat, timeout: int, saved: int, t0: int)
    requires Restores(a, held, timeout, saved, t0) && Disciplined(b, t0)
    requires held == 0 ==> timeout == t0
    ensures Restores(a + b, held, timeout, saved, t0)
    decreases |a|
  {
    if a == [] {
      assert a + b == b;
    } else {
      assert (a + b)[1..] == a[1..] + b;
      match a[0] {
        case Lock => RestoresConcat(a[1..], b, held + 1, if held == 0 then t0 else timeout, saved, t0);
        case Unlock => RestoresConcat(a[1..], b, held - 1, timeout, saved, t0);
        case Save => RestoresConcat(a[1..], b, held, timeout, timeout, t0);
        case Set(v) => RestoresConcat(a[1..], b, held, v, saved, t0);
        case Restore => RestoresConcat(a[1..], b, held, saved, saved, t0);
        case Other => RestoresConcat(a[1..], b, held, timeout, saved, t0);
      }
    }
  }

  lemma DisciplinedConcat(a: seq<Instr>, b: seq<Instr>, t0: int)
    requires Disciplined(a, t0) && Disciplined(b, t0)
    ensures Disciplined(a + b, t0)
  {
    forall saved: int ensures Restores(a + b, 0, t0, saved, t0) {
      RestoresConcat(a, b, 0, t0, saved, t0);
    }
  }

  lemma TemporaryThen(v: int, tail: seq<Instr>, t0: int)
    requires Restores(tail, 1, t0, t0, t0)
    ensures Restores(Temporary(v) + tail, 1, t0, t0, t0)
  {
  }

  lemma {:induction false} RepeatThen(v: int, n: nat, tail: seq<Instr>, t0: int)
    requires Restores(tail, 1, t0, t0, t0)
    ensures Restores(Repeat(Temporary(v), n) + tail, 1, t0, t0, t0)
  {
    if n == 0 {
      assert [] + tail == tail;
    } else {
      RepeatThen(v, n - 1, tail, t0);
      TemporaryThen(v, Repeat(Temporary(v), n - 1) + tail, t0);
      assert Repeat(Temporary(v), n) + tail == Temporary(v) + (Repeat(Temporary(v), n - 1) + tail);
    }
  }

  lemma {:induction false} AttemptsThen(counts: seq<nat>, saved: int, t0: int)
    ensures Restores(Attempts(counts) + [Unlock], 1, t0, saved, t0)
  {
    if counts == [] {
      assert Attempts(counts) + [Unlock] == [Unlock];
    } else {
      var tail := Attempts(counts[1..]) + [Unlock];
      AttemptsThen(counts[1..], t0, t0);
      RepeatThen(30000, counts[0], tail, t0);
      var p, q := Attempts(counts) + [Unlock], Repeat(Temporary(30000), counts[0]) + tail;
      assert p == [Other, Save] + q;
      assert p[1..] == [Save] + q && p[1..][1..] == q;
    }
  }

  /** A critical section that saves the timeout first and then does `body`. */
  lemma SectionDisciplined(body: seq<Instr>, t0: int)
    requires Restores(body, 1, t0, t0, t0)
    ensures Disciplined([Lock, Save] + body, t0)
  {
  }

  lemma {:induction false} ReceiveDisciplined(turns: nat, t0: int)
    ensures Disciplined(Trace(Receive(turns)), t0)
  {
    if turns > 0 {
      ReceiveDisciplined(turns - 1, t0);
      TemporaryThen(1000, [Unlock], t0);
      SectionDisciplined(Temporary(1000) + [Unlock], t0);
      assert [Lock, Save] + Temporary(1000) + [Unlock] == [Lock, Save] + (Temporary(1000) + [Unlock]);
      DisciplinedConcat([Lock, Save] + Temporary(1000) + [Unlock], Trace(Receive(turns - 1)), t0);
    }
  }

  lemma PowerUpDisciplined(retries: nat, t0: int)
    ensures Disciplined(Trace(PowerUp(retries)), t0)
  {
    var tail := [Other, Unlock];
    assert tail[1..] == [Unlock];
    RepeatThen(1000, retries, tail, t0);
    SectionDisciplined(Repeat(Temporary(1000), retries) + tail, t0);
  }

  lemma {:induction false} RegisterDisciplined(searching: bool, registered: bool, t0: int)
    ensures Disciplined(Trace(Register(searching, registered)), t0)
  {
    var body := Repeat(Temporary(1000), if searching then if registered then 2 else 1 else 0) + [Unlock];
    RepeatThen(1000, if searching then if registered then 2 else 1 else 0, [Unlock], t0);
    assert ([Other] + body)[1..] == body;
    SectionDisciplined([Other] + body, t0);
    assert Trace(Register(searching, registered)) == [Lock, Save] + ([Other] + body);
  }

  lemma ConnectDisciplined(activations: seq<nat>, t0: int)
    ensures Disciplined(Trace(ConnectStack(activations)), t0)
  {
    var p, tail := Trace(ConnectStack(activations)), Attempts(activations) + [Unlock];
    forall saved: int ensures Restores(p, 0, t0, saved, t0) {
      AttemptsThen(activations, saved, t0);
      assert p[1..] == [Other] + tail && p[1..][1..] == tail;
    }
  }

  /** Every call saves and restores inside one critical section, however its loops turn out. */
  lemma CallsAreDisciplined(c: Call, t0: int)
    ensures Disciplined(Trace(c), t0)
  {
    match c {
      case EventTurn =>
        TemporaryThen(10, [Unlock], t0);
        SectionDisciplined(Temporary(10) + [Unlock], t0);
        assert Trace(c) == [Lock, Save] + (Temporary(10) + [Unlock]);
      case Receive(turns) =>
        ReceiveDisciplined(turns, t0);
      case GetHostByName =>
        TemporaryThen(60000, [Unlock], t0);
        SectionDisciplined(Temporary(60000) + [Unlock], t0);
        assert Trace(c) == [Lock, Save] + (Temporary(60000) + [Unlock]);
      case PowerUp(retries) =>
        PowerUpDisciplined(retries, t0);
      case Register(searching, registered) =>
        RegisterDisciplined(searching, registered, t0);
      case ConnectStack(activations) =>
        ConnectDisciplined(activations, t0);
      case Simple(nesting) =>
        forall saved: int ensures Restores(Trace(c), 0, t0, saved, t0) {
          LockedThen(nesting, [], 0, t0, saved, t0);
          assert Locked(nesting) + [] == Locked(nesting);
        }
    }
  }

  function Program(calls: seq<Call>): seq<Instr>
  {
    if calls == [] then [] else Trace(calls[0]) + Program(calls[1..])
  }

  lemma {:induction false} ProgramsAreDisciplined(calls: seq<Call>, t0: int)
    ensures Disciplined(Program(calls), t0)
  {
    if calls != [] {
      ProgramsAreDisciplined(calls[1..], t0);
      CallsAreDisciplined(calls[0], t0);
      DisciplinedConcat(Trace(calls[0]), Program(calls[1..]), t0);
    }
  }

  /** Any number of threads, each about to make any calls, with the lock free. */
  predicate Starts(s: System, programs: seq<seq<Call>>, t0: int)
  {
    && |s.threads| == |programs|
    && (forall i :: 0 <= i < |programs| ==> s.threads[i].rest == Program(programs[i]))
    && s.owner == None && s.depth == 0 && s.timeout == t0
  }

  lemma DriverKeepsTimeout(s: System, programs: seq<seq<Call>>, schedule: seq<nat>, s': System, t0: int)
    requires Starts(s, programs, t0) && Runs(s, schedule, s')
    ensures s'.owner == None ==> s'.depth == 0 && s'.timeout == t0
  {
    forall i | 0 <= i < |programs| ensures Restores(s.threads[i].rest, 0, t0, s.threads[i].saved, t0) {
      ProgramsAreDisciplined(programs[i], t0);
    }
    TimeoutRestoredWhenFree(s, schedule, s', t0);
  }

  // ---------------------------------------------------------------- the N2xx receive call

  /** The N2xx receive loop, one turn after the other and then `tail`; the timeout each turn restores
      was copied before the loop. */
  function N2xxLoop(turns: nat, tail: seq<Instr>): seq<Instr>
  {
    if turns == 0 then tail
    else [Lock] + ([Set(1000)] + ([Other] + ([Restore] + ([Unlock] + N2xxLoop(turns - 1, tail)))))
  }

  lemma {:induction false} RestoresCons(x: Instr, rest: seq<Instr>, held: nat, timeout: int, saved: int, t0: int)
    ensures ([x] + rest)[1..] == rest
    ensures x.Set? ==>
      (Restores([x] + rest, held, timeout, saved, t0) <==> held > 0 && Restores(rest, held, x.v, saved, t0))
    ensures x == Lock && held == 0 ==>
      (Restores([x] + rest, 0, timeout, saved, t0) <==> Restores(rest, 1, t0, saved, t0))
    ensures x == Other ==>
      (Restores([x] + rest, held, timeout, saved, t0) <==> Restores(rest, held, timeout, saved, t0))
    ensures x == Restore ==>
      (Restores([x] + rest, held, timeout, saved, t0) <==> held > 0 && Restores(rest, held, saved, saved, t0))
    ensures x == Unlock && held == 1 ==>
      (Restores([x] + rest, held, timeout, saved, t0) <==> timeout == t0 && Restores(rest, 0, timeout, saved, t0))
  {
    assert ([x] + rest)[1..] == rest;
  }

  /** Alone, the loop restores the timeout exactly if the copy was right. */
  lemma {:induction false} N2xxLoopRestoresIff(turns: nat, tail: seq<Instr>, saved: int, t0: int)
    requires Disciplined(tail, t0)
    ensures Restores(N2xxLoop(turns, tail), 0, t0, saved, t0) <==> turns == 0 || saved == t0
  {
    if turns > 0 {
      var p5 := N2xxLoop(turns - 1, tail);
      var p4 := [Unlock] + p5;
      var p3 := [Restore] + p4;
      var p2 := [Other] + p3;
      N2xxLoopRestoresIff(turns - 1, tail, saved, t0);
      RestoresCons(Unlock, p5, 1, saved, saved, t0);
      RestoresCons(Restore, p4, 1, 1000, saved, t0);
      RestoresCons(Other, p3, 1, 1000, saved, t0);
      RestoresCons(Set(1000), p2, 1, t0, saved, t0);
      RestoresCons(Lock, [Set(1000)] + p2, 0, t0, saved, t0);
    }
  }

  /** Thread `i` is outside the lock and every other thread is on course. */
  predicate OthersInOrder(s: System, i: nat, t0: int)
  {
    && i < |s.threads| && !Holds(s, i)
    && (s.owner == None <==> s.depth == 0)
    && (s.owner == None ==> s.timeout == t0)
    && (s.owner.Some? ==> s.owner.value < |s.threads|)
    && forall k :: 0 <= k < |s.threads| && k != i ==>
         Restores(s.threads[k].rest, if Holds(s, k) then s.depth else 0,
                  if Holds(s, k) then s.timeout else t0, s.threads[k].saved, t0)
  }

  lemma RunsCons(s: System, i: nat, schedule: seq<nat>, s': System)
    requires CanStep(s, i) && Runs(StepOf(s, i), schedule, s')
    ensures Runs(s, [i] + schedule, s')
  {
    assert ([i] + schedule)[1..] == schedule;
  }

  lemma {:induction false} RunsConcat(s: System, a: seq<nat>, s1: System, b: seq<nat>, s2: System)
    requires Runs(s, a, s1) && Runs(s1, b, s2)
    ensures Runs(s, a + b, s2)
    decreases |a|
  {
    if a == [] {
      assert a + b == b;
    } else {
      RunsConcat(StepOf(s, a[0]), a[1..], s1, b, s2);
      RunsCons(s, a[0], a[1..] + b, s2);
      assert a + b == [a[0]] + (a[1..] + b);
    }
  }

  /** A thread that is on course and holds the lock can run until it lets go of it. */
  lemma {:induction false} LetsGo(s: System, j: nat, t0: int) returns (schedule: seq<nat>, s': System)
    requires j < |s.threads| && Holds(s, j) && s.depth > 0
    requires Restores(s.threads[j].rest, s.depth, s.timeout, s.threads[j].saved, t0)
    ensures Runs(s, schedule, s') && s'.owner == None && s'.depth == 0 && |s'.threads| == |s.threads|
    ensures forall k :: 0 <= k < |s.threads| && k != j ==> s'.threads[k] == s.threads[k]
    decreases |s.threads[j].rest|
  {
    var s1 := StepOf(s, j);
    if s1.owner == None {
      schedule, s' := [], s1;
    } else {
      schedule, s' := LetsGo(s1, j, t0);
    }
    RunsCons(s, j, schedule, s');
    schedule := [j] + schedule;
  }

  /** With the lock free, a turn leaves behind whatever was copied. */
  lemma TurnLeavesCopy(s: System, i: nat, turns: nat, tail: seq<Instr>) returns (schedule: seq<nat>, s': System)
    requires i < |s.threads| && s.owner == None && s.depth == 0 && turns > 0
    requires s.threads[i].rest == N2xxLoop(turns, tail)
    ensures Runs(s, schedule, s') && s'.owner == None && s'.timeout == s.threads[i].saved
  {
    var s1 := StepOf(s, i);
    var s2 := StepOf(s1, i);
    var s3 := StepOf(s2, i);
    var s4 := StepOf(s3, i);
    s' := StepOf(s4, i);
    RunsCons(s4, i, [], s');
    RunsCons(s3, i, [i] + [], s');
    RunsCons(s2, i, [i] + ([i] + []), s');
    RunsCons(s1, i, [i] + ([i] + ([i] + [])), s');
    RunsCons(s, i, [i] + ([i] + ([i] + ([i] + []))), s');
    schedule := [i] + ([i] + ([i] + ([i] + ([i] + []))));
  }

  /** In every run from here a free lock finds the timeout `t0`. */
  ghost predicate AlwaysRestored(s: System, t0: int)
  {
    forall schedule, s' :: Runs(s, schedule, s') && s'.owner == None ==> s'.timeout == t0
  }

  /** Thread `i` has copied the right timeout and is about to run the receive loop, then other calls. */
  lemma RightCopyRestores(s: System, i: nat, turns: nat, calls: seq<Call>, t0: int)
    requires OthersInOrder(s, i, t0) && s.threads[i].saved == t0 && s.threads[i].rest == N2xxLoop(turns, Program(calls))
    ensures AlwaysRestored(s, t0)
  {
    ProgramsAreDisciplined(calls, t0);
    N2xxLoopRestoresIff(turns, Program(calls), t0, t0);
    forall schedule, s' | Runs(s, schedule, s') && s'.owner == None ensures s'.timeout == t0 {
      TimeoutRestoredWhenFree(s, schedule, s', t0);
    }
  }

  /** With a wrong copy, whoever holds the lock may let go of it and a turn of the loop may follow. */
  lemma {:induction false} WrongCopyLeaks(s: System, i: nat, turns: nat, tail: seq<Instr>, t0: int)
    requires OthersInOrder(s, i, t0) && s.threads[i].saved != t0 && turns > 0
    requires s.threads[i].rest == N2xxLoop(turns, tail)
    ensures !AlwaysRestored(s, t0)
  {
    var a, s1 := [], s;
    if s.owner.Some? {
      a, s1 := LetsGo(s, s.owner.value, t0);
    }
    var b, s2 := TurnLeavesCopy(s1, i, turns, tail);
    RunsConcat(s, a, s1, b, s2);
  }

  lemma {:induction false} CopyTaken(s: System, i: nat, rest: seq<Instr>, t0: int)
    requires OthersInOrder(s, i, t0) && s.threads[i].rest == [Save] + rest
    ensures OthersInOrder(StepOf(s, i), i, t0)
    ensures StepOf(s, i).threads[i] == Thread(rest, s.timeout)
  {
    var s' := StepOf(s, i);
    assert forall k :: 0 <= k < |s.threads| && k != i ==> s'.threads[k] == s.threads[k];
  }

  /** The N2xx receive call keeps the timeout exactly if it copies the right one, as it does when
      the lock is free at that moment. */
  lemma {:induction false} N2xxReceiveIsRightIff(s: System, i: nat, turns: nat, calls: seq<Call>, t0: int)
    requires OthersInOrder(s, i, t0) && turns > 0 && s.threads[i].rest == [Save] + N2xxLoop(turns, Program(calls))
    ensures AlwaysRestored(StepOf(s, i), t0) <==> s.timeout == t0
    ensures s.owner == None ==> AlwaysRestored(StepOf(s, i), t0)
  {
    var s1 := StepOf(s, i);
    CopyTaken(s, i, N2xxLoop(turns, Program(calls)), t0);
    if s.timeout == t0 {
      RightCopyRestores(s1, i, turns, calls, t0);
    } else {
      WrongCopyLeaks(s1, i, turns, Program(calls), t0);
    }
  }

  /** The receive call with one turn of its loop. */
  const N2XX_RECVFROM: seq<Instr> := [Save, Lock, Set(1000), Other, Restore, Unlock]

  const EVENT_TURN: seq<Instr> := [Lock, Save, Set(10), Other, Restore, Unlock]

  /** One N2xx receive call, at instruction `k`, and one turn of the event thread, at `j`. */
  function Pair(k: nat, saved: int, j: nat, savedByEvent: int, owner: Option<nat>, timeout: int): System
    requires k <= 6 && j <= 6
  {
    System([Thread(N2XX_RECVFROM[k..], saved), Thread(EVENT_TURN[j..], savedByEvent)], owner,
           if owner == None then 0 else 1, timeout)
  }

  /** The pair may take one more step, by thread `i`, before a run. */
  lemma PairStep(k: nat, saved: int, j: nat, savedByEvent: int, owner: Option<nat>, timeout: int, i: nat, p': System,
                 end: System)
    requires k <= 6 && j <= 6 && i < 2 && (if i == 0 then k else j) < 6
    requires var next := if i == 0 then N2XX_RECVFROM[k] else EVENT_TURN[j];
      && (next.Lock? ==> owner == None) && (next.Unlock? ==> owner == Some(i))
      && p' == Pair(
        if i == 0 then k + 1 else k, if i == 0 && next.Save? then timeout else saved,
        if i == 1 then j + 1 else j, if i == 1 && next.Save? then timeout else savedByEvent,
        if next.Lock? then Some(i) else if next.Unlock? then None else owner,
        match next case Set(v) => v case Restore => if i == 0 then saved else savedByEvent case _ => timeout)
    requires Reaches(p', end)
    ensures Reaches(Pair(k, saved, j, savedByEvent, owner, timeout), end)
  {
    var schedule :| Runs(p', schedule, end);
    var p := Pair(k, saved, j, savedByEvent, owner, timeout);
    if i == 0 {
      assert N2XX_RECVFROM[k..][0] == N2XX_RECVFROM[k] && N2XX_RECVFROM[k..][1..] == N2XX_RECVFROM[k + 1..];
    } else {
      assert EVENT_TURN[j..][0] == EVENT_TURN[j] && EVENT_TURN[j..][1..] == EVENT_TURN[j + 1..];
    }
    assert StepOf(p, i).threads == p'.threads;
    assert StepOf(p, i) == p';
    assert ([i] + schedule)[1..] == schedule;
    assert Runs(p, [i] + schedule, end);
  }

  /** From the copy taken too early on: the event thread lets go, the receive call runs to its end. */
  lemma ReceiveRestoresTheShortTimeout(t0: int)
    ensures Reaches(Pair(1, 10, 5, t0, Some(1), t0), Pair(6, 10, 6, t0, None, 10))
  {
    var end := Pair(6, 10, 6, t0, None, 10);
    assert Runs(end, [], end);
    PairStep(5, 10, 6, t0, Some(0), 10, 0, Pair(6, 10, 6, t0, None, 10), end);
    PairStep(4, 10, 6, t0, Some(0), 1000, 0, Pair(5, 10, 6, t0, Some(0), 10), end);
    PairStep(3, 10, 6, t0, Some(0), 1000, 0, Pair(4, 10, 6, t0, Some(0), 1000), end);
    PairStep(2, 10, 6, t0, Some(0), t0, 0, Pair(3, 10, 6, t0, Some(0), 1000), end);
    PairStep(1, 10, 6, t0, None, t0, 0, Pair(2, 10, 6, t0, Some(0), t0), end);
    PairStep(1, 10, 5, t0, Some(1), t0, 1, Pair(1, 10, 6, t0, None, t0), end);
  }

  /** There, one turn of the event thread at the wrong moment leaves the short timeout behind. */
  lemma SavingOutsideTheLockLeaksTimeout(t0: int)
    ensures exists s' :: Reaches(Pair(0, 0, 0, 0, None, t0), s') && s'.owner == None && s'.timeout == 10
  {
    var end := Pair(6, 10, 6, t0, None, 10);
    ReceiveRestoresTheShortTimeout(t0);
    PairStep(1, 10, 4, t0, Some(1), 10, 1, Pair(1, 10, 5, t0, Some(1), t0), end);
    PairStep(1, 10, 3, t0, Some(1), 10, 1, Pair(1, 10, 4, t0, Some(1), 10), end);
    PairStep(0, 0, 3, t0, Some(1), 10, 0, Pair(1, 10, 3, t0, Some(1), 10), end);
    PairStep(0, 0, 2, t0, Some(1), t0, 1, Pair(0, 0, 3, t0, Some(1), 10), end);
    PairStep(0, 0, 1, 0, Some(1), t0, 1, Pair(0, 0, 2, t0, Some(1), t0), end);
    PairStep(0, 0, 0, 0, None, t0, 1, Pair(0, 0, 1, 0, Some(1), t0), end);
  }
}
