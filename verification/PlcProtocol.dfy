/** The run/stop and cycle protocol of the main task, the debug thread and the controller, as interleaved atomic steps
    over two semaphores of limit 1 (app/src/plc_task.c:76-138, app/src/plc_debug.c:109-187,
    app/src/plc_loader.c:564-636). */
module PlcProtocol {
  /** Where plc_main_task stands. */
  datatype Main =
    | WaitRun                      // k_sem_take(&sem_plc_run)
    | Init                         // before __init_debug
    | WaitCycle                    // k_sem_take(&plc_cycle_start)
    | InCycle                      // config_run__
    | ReadFlag                     // reads plc_run for the cycle's output update
    | Driving(on: bool)
    | TestFlag                     // while (plc_run == 1)
    | ReadFinal                    // reads plc_run for the output reset
    | DrivingFinal(on: bool)
    | GiveRun                      // k_sem_give(&sem_plc_run)

  /** Where plc_debug_thread stands. */
  datatype Debug =
    | Off
    | Looking                      // while (plc_run)
    | Taking                       // k_sem_take(&plc_cycle_start, K_MSEC(1))
    | Publishing                   // owns the cycle: publish_debug
    | Giving                       // k_sem_give after a publish
    | Leaving(holds: bool)         // the give after the loop
    | Finishing                    // clears the thread's flags

  /** Where the caller of plc_set_start or plc_set_stop stands. */
  datatype Control = Idle | Starting | Stopping | Resetting

  datatype Output = Untouched | Driven | Zeroed

  /** `None`: plc_initialized is clear. `Broken`: it is set, but the handle names no module. */
  datatype Code = None | Broken | Ready

  datatype State = State(main: Main, debug: Debug, control: Control, plcRun: bool, code: Code, run: nat, cycle: nat,
                         initialised: bool, debugActive: bool, stopDebug: bool, output: Output)

  const BOOT := State(WaitRun, Off, Idle, false, None, 0, 0, false, false, false, Untouched)

  /** `ok` says whether a timed wait was granted, or whether a publish succeeded in time. A load that fails in
      udynlink_load_module zeroes the handle but leaves plc_initialized as it was. */
  datatype Action =
    | MainStep | DebugStep(ok: bool) | ControlStep | StopTimeout
    | SetStart | SetStop | NewPlc | Load | LoadFailed | Unload | Launch | RequestDebugStop

  // ---------------------------------------------------------------- steps

  predicate MainReady(s: State) {
    (s.main.WaitRun? ==> s.run > 0) && (s.main.WaitCycle? ==> s.cycle > 0)
  }

  function MainNext(s: State): State
    requires MainReady(s)
  {
    match s.main
    case WaitRun => s.(main := Init, run := s.run - 1)
    case Init => s.(main := WaitCycle, cycle := 1, initialised := true)
    case WaitCycle => s.(main := InCycle, cycle := s.cycle - 1)
    case InCycle => s.(main := ReadFlag, cycle := 1)
    case ReadFlag => s.(main := Driving(s.plcRun))
    case Driving(on) => s.(main := TestFlag, output := if on then Driven else Zeroed)
    case TestFlag => s.(main := if s.plcRun then WaitCycle else ReadFinal)
    case ReadFinal => s.(main := DrivingFinal(s.plcRun))
    case DrivingFinal(on) => s.(main := GiveRun, output := if on then Driven else Zeroed)
    case GiveRun => s.(main := WaitRun, run := 1)
  }

  predicate DebugReady(s: State, ok: bool) {
    !s.debug.Off? && (s.debug.Taking? && ok ==> s.cycle > 0)
  }

  function DebugNext(s: State, ok: bool): State
    requires DebugReady(s, ok)
  {
    match s.debug
    case Looking => if s.plcRun then s.(debug := Taking, debugActive := true) else s.(debug := Leaving(false))
    case Taking =>
      if ok then s.(debug := Publishing, cycle := s.cycle - 1)
      else s.(debug := if s.stopDebug then Leaving(false) else Looking)
    case Publishing => s.(debug := if ok then Giving else Leaving(true))
    case Giving => s.(debug := Looking, cycle := 1)
    case Leaving(holds) => s.(debug := Finishing, cycle := 1)
    case Finishing => s.(debug := Off, stopDebug := false, debugActive := false)
    case Off => s
  }

  predicate ControlReady(s: State) {
    s.control.Starting? || (s.control.Stopping? && s.run > 0) || s.control.Resetting?
  }

  function ControlNext(s: State): State
    requires ControlReady(s)
  {
    match s.control
    case Starting => s.(control := Idle, run := 1)
    case Stopping => s.(control := Idle, run := s.run - 1)
    case Resetting => s.(control := Idle, run := 0)
    case Idle => s
  }

  predicate Enabled(s: State, a: Action) {
    match a
    case MainStep => MainReady(s)
    case DebugStep(ok) => DebugReady(s, ok)
    case ControlStep => ControlReady(s)
    case StopTimeout => s.control.Stopping? && s.run == 0
    case SetStart => s.control.Idle? && !s.code.None? && !s.plcRun
    case SetStop => s.control.Idle? && s.plcRun
    case NewPlc => true
    case Load => true
    case LoadFailed => true
    case Unload => !s.plcRun && !s.code.None?
    case Launch => s.plcRun && !s.debugActive
    case RequestDebugStop => true
  }

  function Do(s: State, a: Action): State
    requires Enabled(s, a)
  {
    match a
    case MainStep => MainNext(s)
    case DebugStep(ok) => DebugNext(s, ok)
    case ControlStep => ControlNext(s)
    case StopTimeout => s.(control := Resetting)
    case SetStart => s.(plcRun := true, control := Starting)
    case SetStop => s.(plcRun := false, control := Stopping)
    case NewPlc => s.(plcRun := false)
    case Load => s.(code := Ready)
    case LoadFailed => s.(code := if s.code.None? then None else Broken)
    case Unload => s.(code := None)
    case Launch => s.(debug := Looking)
    case RequestDebugStop => s.(stopDebug := true)
  }

  // ---------------------------------------------------------------- runs

  predicate Possible(s: State, acts: seq<Action>)
    decreases |acts|
  {
    acts == [] || (Enabled(s, acts[0]) && Possible(Do(s, acts[0]), acts[1..]))
  }

  function Exec(s: State, acts: seq<Action>): State
    requires Possible(s, acts)
    decreases |acts|
  {
    if acts == [] then s else Exec(Do(s, acts[0]), acts[1..])
  }

  // ---------------------------------------------------------------- the cycle token

  function Holders(s: State): nat {
    (if s.main.InCycle? then 1 else 0)
    + (if s.debug.Publishing? || s.debug.Giving? || (s.debug.Leaving? && s.debug.holds) then 1 else 0)
  }

  predicate Overlap(s: State) {
    s.main.InCycle? && s.debug.Publishing?
  }

  /** The count is at most 1 and, once debugging was first initialised, the token is never lost. */
  predicate TokenKept(s: State) {
    && s.run <= 1 && s.cycle <= 1
    && (s.initialised ==> s.cycle + Holders(s) >= 1)
    && (s.debug.Taking? || s.debug.Publishing? || s.debug.Giving? || (s.debug.Leaving? && s.debug.holds)
        ==> s.debugActive)
    && (s.main.WaitRun? || s.main.Init? || s.initialised)
  }

  lemma TokenMainStep(s: State)
    requires TokenKept(s) && MainReady(s)
    ensures TokenKept(MainNext(s))
  {
    match s.main
    case WaitRun =>
    case Init =>
    case WaitCycle =>
    case InCycle =>
    case _ =>
  }

  lemma TokenDebugStep(s: State, ok: bool)
    requires TokenKept(s) && DebugReady(s, ok)
    ensures TokenKept(DebugNext(s, ok))
  {
    match s.debug
    case Off =>
    case Looking =>
    case Taking =>
    case Publishing =>
    case Giving =>
    case Leaving(_) =>
    case Finishing =>
  }

  lemma TokenStep(s: State, a: Action)
    requires TokenKept(s) && Enabled(s, a)
    ensures TokenKept(Do(s, a))
  {
    hide MainNext, DebugNext, MainReady, DebugReady;
    match a
    case MainStep => TokenMainStep(s);
    case DebugStep(ok) => TokenDebugStep(s, ok);
    case _ =>
  }

  lemma {:induction false} TokenNeverLost(s: State, acts: seq<Action>)
    requires TokenKept(s) && Possible(s, acts)
    ensures TokenKept(Exec(s, acts))
    decreases |acts|
  {
    if acts != [] {
      hide TokenKept, Enabled, Do;
      TokenStep(s, acts[0]);
      TokenNeverLost(Do(s, acts[0]), acts[1..]);
    }
  }

  /** The two steps that put a second token into play: launching the debug thread while the main task is in
      config_run__ with the count at 1, and initialising debugging while the debug thread owns the cycle. */
  predicate Careless(s: State, a: Action) {
    || (a.Launch? && s.main.InCycle? && s.cycle == 1)
    || (a.MainStep? && s.main.Init? && (s.debug.Publishing? || s.debug.Giving?))
  }

  predicate Careful(s: State, acts: seq<Action>)
    requires Possible(s, acts)
    decreases |acts|
  {
    acts == [] || (!Careless(s, acts[0]) && Careful(Do(s, acts[0]), acts[1..]))
  }

  /** A debug thread that owns the cycle owns the only token, and a waiting one cannot get a token while the main task
      is in config_run__. */
  predicate OneToken(s: State) {
    && s.cycle <= 1
    && (s.debug.Publishing? || s.debug.Giving? ==> s.cycle == 0 && !s.main.InCycle?)
    && (s.debug.Looking? || s.debug.Taking? ==> !(s.main.InCycle? && s.cycle == 1))
  }

  lemma OneTokenMainStep(s: State)
    requires OneToken(s) && MainReady(s) && !Careless(s, MainStep)
    ensures OneToken(MainNext(s))
  {
    match s.main
    case WaitRun =>
    case Init =>
    case WaitCycle =>
    case InCycle =>
    case _ =>
  }

  lemma OneTokenDebugStep(s: State, ok: bool)
    requires OneToken(s) && DebugReady(s, ok)
    ensures OneToken(DebugNext(s, ok))
  {
    match s.debug
    case Off =>
    case Looking =>
    case Taking =>
    case Publishing =>
    case Giving =>
    case Leaving(_) =>
    case Finishing =>
  }

  lemma OneTokenStep(s: State, a: Action)
    requires OneToken(s) && Enabled(s, a) && !Careless(s, a)
    ensures OneToken(Do(s, a))
  {
    hide MainNext, DebugNext, MainReady, DebugReady;
    match a
    case MainStep => OneTokenMainStep(s);
    case DebugStep(ok) => OneTokenDebugStep(s, ok);
    case _ =>
  }

  /** Careful runs never overlap config_run__ and publish_debug. */
  lemma {:induction false} CarefulRunsDoNotOverlap(s: State, acts: seq<Action>)
    requires OneToken(s) && Possible(s, acts) && Careful(s, acts)
    ensures OneToken(Exec(s, acts)) && !Overlap(Exec(s, acts))
    decreases |acts|
  {
    if acts != [] {
      hide OneToken, Enabled, Do, Careless;
      OneTokenStep(s, acts[0]);
      CarefulRunsDoNotOverlap(Do(s, acts[0]), acts[1..]);
    }
  }

  lemma {:induction false} ExecConcat(s: State, a: seq<Action>, b: seq<Action>)
    requires Possible(s, a) && Possible(Exec(s, a), b)
    ensures Possible(s, a + b) && Exec(s, a + b) == Exec(Exec(s, a), b)
    decreases |a|
  {
    if a == [] {
      assert a + b == b;
    } else {
      hide Enabled, Do;
      ExecConcat(Do(s, a[0]), a[1..], b);
      assert (a + b)[1..] == a[1..] + b;
    }
  }

  /** The run flag can always be raised without a step of the main task or the debug thread. */
  lemma FlagCanBeRaised(s: State) returns (more: seq<Action>)
    ensures Possible(s, more)
    ensures var s' := Exec(s, more);
            s'.plcRun && s'.main == s.main && s'.debug == s.debug && s'.cycle == s.cycle
            && s'.debugActive == s.debugActive
  {
    if s.plcRun {
      more := [];
    } else {
      var first := EndCall(s);
      var s1 := Exec(s, first);
      ExecTwo(s1, Load, SetStart);
      ExecConcat(s, first, [Load, SetStart]);
      more := first + [Load, SetStart];
    }
  }

  lemma EndCall(s: State) returns (more: seq<Action>)
    requires !s.plcRun
    ensures Possible(s, more)
    ensures var s' := Exec(s, more);
            s'.control.Idle? && !s'.plcRun && s'.main == s.main && s'.debug == s.debug && s'.cycle == s.cycle
            && s'.debugActive == s.debugActive
  {
    if s.control.Idle? {
      more := [];
    } else if ControlReady(s) {
      more := [ControlStep];
      ExecOne(s, ControlStep);
    } else {
      more := [StopTimeout, ControlStep];
      ExecTwo(s, StopTimeout, ControlStep);
    }
  }

  /** The condition is exact: after any careless step the two can overlap. */
  lemma CarelessStepsOverlap(s: State, a: Action) returns (more: seq<Action>)
    requires OneToken(s) && Enabled(s, a) && Careless(s, a)
    ensures Possible(Do(s, a), more) && Overlap(Exec(Do(s, a), more))
  {
    var s1 := Do(s, a);
    if a.Launch? {
      more := [DebugStep(true), DebugStep(true)];
      ExecTwo(s1, more[0], more[1]);
    } else if s.debug.Publishing? {
      more := [MainStep];
      ExecOne(s1, MainStep);
    } else {
      var raise := FlagCanBeRaised(s1);
      var s2 := Exec(s1, raise);
      GivingOverlaps(s2);
      more := raise + [MainStep, DebugStep(true), DebugStep(true), DebugStep(true)];
      ExecConcat(s1, raise, [MainStep, DebugStep(true), DebugStep(true), DebugStep(true)]);
    }
  }

  lemma GivingOverlaps(s: State)
    requires s.plcRun && s.main.WaitCycle? && s.cycle == 1 && s.debug.Giving?
    ensures var acts := [MainStep, DebugStep(true), DebugStep(true), DebugStep(true)];
            Possible(s, acts) && Overlap(Exec(s, acts))
  {
    var s1 := Do(s, MainStep);
    var s2 := Do(s1, DebugStep(true));
    ExecTwo(s2, DebugStep(true), DebugStep(true));
    ExecPrepend(s1, DebugStep(true), [DebugStep(true), DebugStep(true)]);
    ExecPrepend(s, MainStep, [DebugStep(true), DebugStep(true), DebugStep(true)]);
    assert [DebugStep(true)] + [DebugStep(true), DebugStep(true)]
        == [DebugStep(true), DebugStep(true), DebugStep(true)];
    assert [MainStep] + [DebugStep(true), DebugStep(true), DebugStep(true)]
        == [MainStep, DebugStep(true), DebugStep(true), DebugStep(true)];
  }

  /** While the run flag stays clear, a debug thread about to give leaves without publishing again, and its give on
      leaving is absorbed: the second token of a careless initialisation matters only if the flag is raised before the
      thread looks at it. */
  lemma ClearFlagSparesGiving(s: State)
    requires s.main.WaitCycle? && s.cycle == 1 && s.debug.Giving? && !s.plcRun
    ensures var s1 := Do(Do(s, DebugStep(true)), DebugStep(true)); s1.debug == Leaving(false) && OneToken(s1)
    ensures var s2 := Do(s, MainStep);
            var s3 := Do(Do(Do(s2, DebugStep(true)), DebugStep(true)), DebugStep(true));
            s3.debug.Finishing? && OneToken(s3) && Do(s3, MainStep).cycle == 1
  {
    var t1 := Do(s, DebugStep(true));
    var s2 := Do(s, MainStep);
    var t2 := Do(s2, DebugStep(true));
    var t3 := Do(t2, DebugStep(true));
    assert t1.debug.Looking? && t2.debug.Looking? && t3.debug == Leaving(false);
  }

  /** From boot: the count never exceeds 1, the token is never lost once debugging was initialised, and careful runs
      never overlap config_run__ and publish_debug. */
  lemma CycleToken(acts: seq<Action>)
    requires Possible(BOOT, acts)
    ensures var s := Exec(BOOT, acts); s.cycle <= 1 && (s.initialised ==> s.cycle + Holders(s) >= 1)
    ensures Careful(BOOT, acts) ==> !Overlap(Exec(BOOT, acts))
  {
    TokenNeverLost(BOOT, acts);
    if Careful(BOOT, acts) {
      CarefulRunsDoNotOverlap(BOOT, acts);
    }
  }

  lemma ExecPrepend(s: State, a: Action, acts: seq<Action>)
    requires Enabled(s, a) && Possible(Do(s, a), acts)
    ensures Possible(s, [a] + acts) && Exec(s, [a] + acts) == Exec(Do(s, a), acts)
  {
    assert ([a] + acts)[1..] == acts;
  }

  lemma ExecOne(s: State, a: Action)
    requires Enabled(s, a)
    ensures Possible(s, [a]) && Exec(s, [a]) == Do(s, a)
  {
    ExecPrepend(s, a, []);
  }

  lemma ExecTwo(s: State, a: Action, b: Action)
    requires Enabled(s, a) && Enabled(Do(s, a), b)
    ensures Possible(s, [a, b]) && Exec(s, [a, b]) == Do(Do(s, a), b)
  {
    ExecOne(Do(s, a), b);
    ExecPrepend(s, a, [b]);
    assert [a] + [b] == [a, b];
  }

  /** The debug thread's give on leaving: from whichever state, when it held nothing it changes the count only while the
      main task is in config_run__ (or before the first initialisation), and the main task's own give absorbs it. */
  lemma SurplusGiveIsAbsorbed(s: State)
    requires TokenKept(s) && OneToken(s) && s.initialised && s.debug == Leaving(false)
    ensures !s.main.InCycle? ==> Do(s, DebugStep(true)).cycle == s.cycle
    ensures s.main.InCycle? ==>
              Do(Do(s, DebugStep(true)), MainStep) == Do(Do(s, MainStep), DebugStep(true))
              && Do(Do(s, DebugStep(true)), MainStep).cycle == 1
  {
  }

  // ---------------------------------------------------------------- the stop handshake

  /** A step outside the handshake: a stop that times out, or a new program received while the PLC is not stopped. */
  predicate Rough(s: State, a: Action) {
    a.StopTimeout? || (a.NewPlc? && s.plcRun)
  }

  predicate Smooth(s: State, acts: seq<Action>)
    requires Possible(s, acts)
    decreases |acts|
  {
    acts == [] || (!Rough(s, acts[0]) && Smooth(Do(s, acts[0]), acts[1..]))
  }

  /** The run token: in the semaphore, or with the main task between its take and its give. */
  function RunTokens(s: State): nat {
    s.run + if s.main.WaitRun? then 0 else 1
  }

  predicate StopPending(s: State) {
    s.control.Stopping?
  }

  predicate Handshake(s: State) {
    && RunTokens(s) == (if (s.plcRun && !s.control.Starting?) || StopPending(s) then 1 else 0)
    && (StopPending(s) ==> !s.plcRun) && (s.control.Starting? ==> s.plcRun) && !s.control.Resetting?
    && (s.main.ReadFinal? || s.main.DrivingFinal? || s.main.GiveRun? ==> StopPending(s))
    && (s.main.DrivingFinal? ==> !s.main.on)
    && (s.main.GiveRun? || s.main.WaitRun? ==> !s.output.Driven?)
  }

  lemma HandshakeMainStep(s: State)
    requires Handshake(s) && MainReady(s)
    ensures Handshake(MainNext(s))
  {
    match s.main
    case WaitRun =>
    case Init =>
    case WaitCycle =>
    case InCycle =>
    case _ =>
  }

  lemma DebugStepFrame(s: State, ok: bool)
    requires DebugReady(s, ok)
    ensures var s' := DebugNext(s, ok);
            && s'.main == s.main && s'.run == s.run && s'.control == s.control && s'.plcRun == s.plcRun
            && s'.output == s.output
  {
    match s.debug
    case Off =>
    case Looking =>
    case Taking =>
    case Publishing =>
    case Giving =>
    case Leaving(_) =>
    case Finishing =>
  }

  lemma HandshakeDebugStep(s: State, ok: bool)
    requires Handshake(s) && DebugReady(s, ok)
    ensures Handshake(DebugNext(s, ok))
  {
    hide DebugNext;
    DebugStepFrame(s, ok);
  }

  lemma HandshakeStep(s: State, a: Action)
    requires Handshake(s) && Enabled(s, a) && !Rough(s, a)
    ensures Handshake(Do(s, a))
  {
    hide MainNext, DebugNext, MainReady, DebugReady;
    match a
    case MainStep => HandshakeMainStep(s);
    case DebugStep(ok) => HandshakeDebugStep(s, ok);
    case _ =>
  }

  /** In every smooth run the run token exists exactly while the PLC runs or a stop is pending. */
  lemma {:induction false} HandshakeHolds(s: State, acts: seq<Action>)
    requires Handshake(s) && Possible(s, acts) && Smooth(s, acts)
    ensures Handshake(Exec(s, acts))
    decreases |acts|
  {
    if acts != [] {
      hide Handshake, Enabled, Do, Rough;
      HandshakeStep(s, acts[0]);
      HandshakeHolds(Do(s, acts[0]), acts[1..]);
    }
  }

  predicate Stopped(s: State) {
    !s.plcRun && s.control.Idle?
  }

  /** Once a stop has succeeded, and until the next start, the main task is parked, the last write to the outputs, if
      any, drove zeros, and no write follows. */
  lemma {:induction false} StoppedIsQuiet(s: State, acts: seq<Action>)
    requires Handshake(s) && Possible(s, acts) && Smooth(s, acts)
    requires Stopped(s) && SetStart !in acts
    ensures var s' := Exec(s, acts);
            Stopped(s') && s'.main.WaitRun? && !s'.output.Driven? && s'.output == s.output && s'.run == 0
    decreases |acts|
  {
    if acts != [] {
      StoppedIsQuiet(Do(s, acts[0]), acts[1..]);
    }
  }

  /** The condition is exact: after a rough step the PLC can be stopped, with no call in progress, and yet the main task
      not be parked. */
  lemma RoughStepsUnpark(s: State, a: Action) returns (more: seq<Action>)
    requires Handshake(s) && Enabled(s, a) && Rough(s, a)
    ensures Possible(Do(s, a), more) && Stopped(Exec(Do(s, a), more)) && !Exec(Do(s, a), more).main.WaitRun?
  {
    var s1 := Do(s, a);
    if a.StopTimeout? {
      more := [ControlStep];
      ExecOne(s1, ControlStep);
    } else if s.control.Starting? {
      more := [ControlStep, MainStep];
      ExecTwo(s1, ControlStep, MainStep);
    } else if s.main.WaitRun? {
      more := [MainStep];
      ExecOne(s1, MainStep);
    } else {
      more := [];
    }
  }

  /** From boot, in every smooth run: the run token is in play exactly while a start has completed and no stop has, and
      a module is unloaded with no call in progress only if the main task is parked. */
  lemma RunToken(acts: seq<Action>)
    requires Possible(BOOT, acts) && Smooth(BOOT, acts)
    ensures var s := Exec(BOOT, acts);
            && (RunTokens(s) == 1 <==> (s.plcRun && !s.control.Starting?) || StopPending(s))
            && RunTokens(s) <= 1
            && (Enabled(s, Unload) && s.control.Idle? ==> s.main.WaitRun? && !s.output.Driven?)
  {
    HandshakeHolds(BOOT, acts);
  }

  // ---------------------------------------------------------------- a stop can always complete

  /** Steps the main task is away from its park, and, when it waits for the cycle, the debug thread from its give. */
  function Distance(s: State): nat {
    match s.main
    case WaitRun => 1
    case GiveRun => 4
    case DrivingFinal(_) => 8
    case ReadFinal => 12
    case TestFlag => 16
    case Driving(_) => 20
    case ReadFlag => 24
    case InCycle => 28
    case WaitCycle => 32 + if s.cycle > 0 then 0 else if s.debug.Publishing? then 2 else 1
    case Init => 36
  }

  /** No deadlock: while a stop is pending, some step is possible that brings it closer. */
  function Helpful(s: State): (a: Action)
    requires TokenKept(s) && Handshake(s) && StopPending(s)
    ensures Enabled(s, a) && !Rough(s, a)
    ensures a.ControlStep? || (StopPending(Do(s, a)) && Distance(Do(s, a)) < Distance(s))
  {
    if s.main.WaitRun? then ControlStep
    else if s.main.WaitCycle? && s.cycle == 0 then DebugStep(true)
    else MainStep
  }

  /** Whenever a stop is pending, it can complete. */
  lemma StopCanComplete(s: State) returns (more: seq<Action>)
    requires TokenKept(s) && Handshake(s) && StopPending(s)
    ensures Possible(s, more) && Smooth(s, more) && Stopped(Exec(s, more)) && Exec(s, more).main.WaitRun?
    decreases Distance(s)
  {
    var a := Helpful(s);
    if a.ControlStep? {
      more := [a];
      ExecOne(s, a);
      assert more[1..] == [];
    } else {
      ExecOne(s, a);
      TokenNeverLost(s, [a]);
      HandshakeStep(s, a);
      var rest := StopCanComplete(Do(s, a));
      more := [a] + rest;
      ExecPrepend(s, a, rest);
      assert more[1..] == rest;
    }
  }

  // ---------------------------------------------------------------- what a running PLC does

  /** The main task is in its loop with the run flag set, and every write to the outputs since it entered was the
      program's. */
  predicate Working(s: State) {
    && s.plcRun
    && (s.main.InCycle? || s.main.ReadFlag? || s.main == Driving(true)
        || ((s.main.TestFlag? || s.main.WaitCycle?) && s.output.Driven?))
  }

  /** Steps that clear the run flag. */
  predicate Clears(a: Action) {
    a.SetStop? || a.NewPlc?
  }

  lemma WorkingStep(s: State, a: Action)
    requires Working(s) && Enabled(s, a) && !Clears(a)
    ensures Working(Do(s, a))
  {
    hide DebugNext, DebugReady;
    match a
    case DebugStep(ok) => DebugStepFrame(s, ok);
    case _ =>
  }

  /** A running PLC drives its outputs: from config_run__ on, and until the run flag is cleared, the main task stays in
      its loop, and at the end of every cycle the outputs are the program's, whatever the debug thread and the callers
      do. */
  lemma {:induction false} RunningDrives(s: State, acts: seq<Action>)
    requires Working(s) && Possible(s, acts) && forall a :: a in acts ==> !Clears(a)
    ensures var s' := Exec(s, acts); Working(s') && (s'.main.TestFlag? ==> s'.output.Driven?)
    decreases |acts|
  {
    if acts != [] {
      hide Working, Enabled, Do, Clears;
      WorkingStep(s, acts[0]);
      RunningDrives(Do(s, acts[0]), acts[1..]);
    }
    assert Working(Exec(s, acts));
  }

  /** In particular from config_run__ itself, whatever was driven before. */
  lemma CycleDrives(s: State, acts: seq<Action>)
    requires s.main.InCycle? && s.plcRun && Possible(s, acts) && SetStop !in acts && NewPlc !in acts
    ensures Exec(s, acts).main.TestFlag? ==> Exec(s, acts).output.Driven?
  {
    RunningDrives(s, acts);
  }

  /** The debug thread is in its loop, and nobody asked it to leave. */
  predicate Tracing(s: State) {
    s.plcRun && !s.stopDebug && (s.debug.Looking? || s.debug.Taking? || s.debug.Publishing? || s.debug.Giving?)
  }

  /** Nothing in the run ends tracing: the run flag is not cleared, nobody asks the thread to leave, and its publishes
      succeed. */
  predicate Undisturbed(s: State, acts: seq<Action>)
    requires Possible(s, acts)
    decreases |acts|
  {
    acts == []
    || (!Clears(acts[0]) && !acts[0].RequestDebugStop? && !(acts[0] == DebugStep(false) && s.debug.Publishing?)
        && Undisturbed(Do(s, acts[0]), acts[1..]))
  }

  lemma TracingStep(s: State, a: Action)
    requires Tracing(s) && Enabled(s, a) && !Clears(a) && !a.RequestDebugStop?
    requires !(a == DebugStep(false) && s.debug.Publishing?)
    ensures Tracing(Do(s, a))
  {
    hide MainNext, MainReady;
    if a.MainStep? {
      MainStepFrame(s);
    }
  }

  lemma MainStepFrame(s: State)
    requires MainReady(s)
    ensures var s' := MainNext(s);
            && s'.debug == s.debug && s'.plcRun == s.plcRun && s'.stopDebug == s.stopDebug && s'.control == s.control
            && s'.code == s.code && s'.debugActive == s.debugActive
  {
    match s.main
    case WaitRun =>
    case Init =>
    case _ =>
  }

  /** A tracing debug thread stays in its loop until it is disturbed. */
  lemma {:induction false} TracingGoesOn(s: State, acts: seq<Action>)
    requires Tracing(s) && Possible(s, acts) && Undisturbed(s, acts)
    ensures Tracing(Exec(s, acts))
    decreases |acts|
  {
    if acts != [] {
      hide Tracing, Enabled, Do, Clears;
      TracingStep(s, acts[0]);
      TracingGoesOn(Do(s, acts[0]), acts[1..]);
    }
  }

  /** And it can always publish, or publish again, next. */
  lemma PublishIsReached(s: State) returns (more: seq<Action>)
    requires TokenKept(s) && OneToken(s) && Tracing(s) && s.initialised
    ensures Possible(s, more) && Undisturbed(s, more) && Exec(s, more).debug.Publishing?
    decreases if s.debug.Publishing? then 0 else if s.debug.Taking? then if s.cycle > 0 then 1 else 2
              else if s.debug.Looking? then 3 else 4
  {
    if s.debug.Publishing? {
      more := [];
    } else {
      var a := if s.debug.Taking? && s.cycle == 0 then MainStep else DebugStep(true);
      TokenStep(s, a);
      OneTokenStep(s, a);
      TracingStep(s, a);
      var rest := PublishIsReached(Do(s, a));
      ExecPrepend(s, a, rest);
      more := [a] + rest;
      assert more[1..] == rest;
    }
  }

  /** A publish that fails ends tracing: the thread gives the cycle back, leaves, and can be launched again. */
  lemma FailedPublishEnds(s: State)
    requires s.debug.Publishing?
    ensures var s' := Do(Do(Do(s, DebugStep(false)), DebugStep(true)), DebugStep(true));
            && s'.debug.Off? && s'.cycle == 1 && s'.main == s.main && (s'.plcRun ==> Enabled(s', Launch))
  {
    var s1 := Do(s, DebugStep(false));
    assert s1.debug == Leaving(true);
    var s2 := Do(s1, DebugStep(true));
    assert s2.debug == Finishing;
  }

  /** A thread that was asked to leave, and waits for the cycle, leaves in three steps; it clears the request and can be
      launched again. */
  lemma RequestedThreadCanRestart(s: State)
    requires s.plcRun && s.debug.Taking? && s.stopDebug
    ensures var s' := Do(Do(Do(s, DebugStep(false)), DebugStep(true)), DebugStep(true));
            && Enabled(s', Launch) && !s'.stopDebug && s'.cycle == 1 && s'.main == s.main && s'.debug.Off?
            && Do(s', Launch).debug.Looking?
  {
    var s1 := Do(s, DebugStep(false));
    assert s1.debug == Leaving(false);
    var s2 := Do(s1, DebugStep(true));
    assert s2.debug == Finishing;
  }

  // ---------------------------------------------------------------- a stop that times out

  /** A stop has timed out, and the semaphore is about to be reset. */
  predicate TimedOut(s: State) {
    && s.control.Resetting? && !s.plcRun && RunTokens(s) == 1
    && (s.main.DrivingFinal? ==> !s.main.on)
    && (s.main.GiveRun? || s.main.WaitRun? ==> !s.output.Driven?)
  }

  lemma TimedOutStep(s: State, a: Action)
    requires TimedOut(s) && Enabled(s, a) && !a.ControlStep?
    ensures TimedOut(Do(s, a))
  {
    hide MainNext, DebugNext, MainReady, DebugReady;
    match a
    case MainStep => TimedOutMainStep(s);
    case DebugStep(ok) => DebugStepFrame(s, ok);
    case _ =>
  }

  lemma TimedOutMainStep(s: State)
    requires TimedOut(s) && MainReady(s)
    ensures TimedOut(MainNext(s))
  {
    match s.main
    case WaitRun =>
    case GiveRun =>
    case _ =>
  }

  /** Whatever happens between the timeout and the reset, the reset ends the stop: the count is 0, so nothing starts by
      itself, and the handshake is sound again if and only if the main task has parked in the meantime. */
  lemma {:induction false} ResetAfterTimeout(s: State, acts: seq<Action>)
    requires TimedOut(s) && Possible(s, acts) && ControlStep !in acts
    ensures var s' := Exec(s, acts);
            && Enabled(s', ControlStep) && Stopped(Do(s', ControlStep)) && Do(s', ControlStep).run == 0
            && (Handshake(Do(s', ControlStep)) <==> s'.main.WaitRun?)
    decreases |acts|
  {
    if acts != [] {
      TimedOutStep(s, acts[0]);
      ResetAfterTimeout(Do(s, acts[0]), acts[1..]);
    }
  }

  lemma TimeoutIsTimedOut(s: State)
    requires Handshake(s) && Enabled(s, StopTimeout)
    ensures TimedOut(Do(s, StopTimeout))
  {
  }

  // ---------------------------------------------------------------- when unloading is safe

  /** The two steps that take a module away from a PLC that can still run it: unloading while a call is in progress, and
      a load that fails over a module that was not unloaded before. */
  predicate Inconsiderate(s: State, a: Action) {
    (a.Unload? && !s.control.Idle?) || (a.LoadFailed? && !s.code.None?)
  }

  predicate Considerate(s: State, acts: seq<Action>)
    requires Possible(s, acts)
    decreases |acts|
  {
    acts == [] || (!Inconsiderate(s, acts[0]) && Considerate(Do(s, acts[0]), acts[1..]))
  }

  /** plc_initialized speaks the truth, and is set whenever the run token is in play or about to be. */
  predicate TokenNeedsModule(s: State) {
    && !s.code.Broken?
    && (RunTokens(s) > 0 || s.control.Starting? ==> s.code.Ready?)
  }

  lemma ModuleStep(s: State, a: Action)
    requires Handshake(s) && TokenNeedsModule(s) && Enabled(s, a) && !Rough(s, a) && !Inconsiderate(s, a)
    ensures TokenNeedsModule(Do(s, a))
  {
    hide MainNext, DebugNext, DebugReady;
    match a
    case MainStep => MainKeepsTokens(s);
    case DebugStep(ok) => DebugKeepsTokens(s, ok);
    case _ =>
  }

  lemma MainKeepsTokens(s: State)
    requires MainReady(s) && RunTokens(s) <= 1
    ensures var s' := MainNext(s);
            RunTokens(s') == RunTokens(s) && s'.code == s.code && s'.control == s.control
  {
    match s.main
    case WaitRun =>
    case GiveRun =>
    case _ =>
  }

  lemma DebugKeepsTokens(s: State, ok: bool)
    requires DebugReady(s, ok)
    ensures var s' := DebugNext(s, ok);
            RunTokens(s') == RunTokens(s) && s'.code == s.code && s'.control == s.control
  {
    DebugStepFrame(s, ok);
  }

  /** If modules are unloaded only with no call in progress, and loads that fail find none loaded, the main task never
      runs without a module. */
  lemma {:induction false} NeverRunsUnloaded(s: State, acts: seq<Action>)
    requires Handshake(s) && TokenNeedsModule(s) && Possible(s, acts) && Smooth(s, acts) && Considerate(s, acts)
    ensures var s' := Exec(s, acts); TokenNeedsModule(s') && (!s'.main.WaitRun? ==> s'.code.Ready?)
    decreases |acts|
  {
    if acts != [] {
      hide Handshake, TokenNeedsModule, Enabled, Do, Rough, Inconsiderate;
      HandshakeStep(s, acts[0]);
      ModuleStep(s, acts[0]);
      NeverRunsUnloaded(Do(s, acts[0]), acts[1..]);
    }
    assert TokenNeedsModule(Exec(s, acts));
  }

  /** Steps the main task is away from config_run__, and, when it waits for the cycle, the debug thread from its give.
      */
  function ToCycle(s: State): nat {
    match s.main
    case InCycle => 0
    case WaitCycle => 4 + if s.cycle > 0 then 0 else if s.debug.Publishing? then 2 else 1
    case Init => 8
    case WaitRun => 12
    case GiveRun => 16
    case DrivingFinal(_) => 20
    case ReadFinal => 24
    case TestFlag => 28
    case Driving(_) => 32
    case ReadFlag => 36
  }

  /** A step that brings the main task closer to config_run__ while a stop is pending. */
  function Onward(s: State): (a: Action)
    requires TokenKept(s) && Handshake(s) && StopPending(s) && !s.main.InCycle?
    ensures Enabled(s, a) && !Rough(s, a)
    ensures var s' := Do(s, a); StopPending(s') && s'.code == s.code && ToCycle(s') < ToCycle(s)
  {
    if s.main.WaitCycle? && s.cycle == 0 then DebugStep(true) else MainStep
  }

  lemma RunsOn(s: State) returns (more: seq<Action>)
    requires TokenKept(s) && Handshake(s) && StopPending(s)
    ensures Possible(s, more) && Smooth(s, more)
    ensures Exec(s, more).main.InCycle? && Exec(s, more).code == s.code
    decreases ToCycle(s)
  {
    if s.main.InCycle? {
      more := [];
    } else {
      var a := Onward(s);
      ExecOne(s, a);
      TokenNeverLost(s, [a]);
      HandshakeStep(s, a);
      var rest := RunsOn(Do(s, a));
      more := [a] + rest;
      ExecPrepend(s, a, rest);
      assert more[1..] == rest;
    }
  }

  /** A load that succeeds makes good whatever was taken away: the PLC can run, and runs, only with a module again. */
  lemma LoadMakesGood(s: State)
    ensures TokenNeedsModule(Do(s, Load))
  {
  }

  /** A pending stop is never far: a loaded PLC that is parked can be started and stopped, a running one stopped. */
  lemma StopComesUp(s: State) returns (more: seq<Action>)
    requires TokenKept(s) && Handshake(s) && !s.code.None?
    ensures Possible(s, more) && Smooth(s, more)
    ensures var s' := Exec(s, more);
            TokenKept(s') && Handshake(s') && StopPending(s') && s'.code == s.code
    decreases if StopPending(s) then 0 else if !s.control.Idle? then 2 else if s.plcRun then 1 else 3
  {
    if StopPending(s) {
      more := [];
    } else {
      var a := if !s.control.Idle? then ControlStep else if s.plcRun then SetStop else SetStart;
      TokenStep(s, a);
      HandshakeStep(s, a);
      var rest := StopComesUp(Do(s, a));
      ExecPrepend(s, a, rest);
      more := [a] + rest;
      assert more[1..] == rest;
    }
  }

  lemma {:induction false} SmoothConcat(s: State, a: seq<Action>, b: seq<Action>)
    requires Possible(s, a) && Smooth(s, a) && Possible(Exec(s, a), b) && Smooth(Exec(s, a), b)
    ensures Possible(s, a + b) && Smooth(s, a + b) && Exec(s, a + b) == Exec(Exec(s, a), b)
    decreases |a|
  {
    if a == [] {
      assert a + b == b;
    } else {
      hide Enabled, Do, Rough;
      SmoothConcat(Do(s, a[0]), a[1..], b);
      assert (a + b)[1..] == a[1..] + b;
    }
  }

  /** The condition is exact: unload_plc_module looks at plc_run alone, and plc_set_start at plc_initialized. From every
      state in which a module is taken away inconsiderately, the main task can reach config_run__ with the module gone.
      */
  lemma InconsiderateStepsRun(s: State, a: Action) returns (more: seq<Action>)
    requires TokenKept(s) && Handshake(s) && Enabled(s, a) && Inconsiderate(s, a)
    ensures Possible(Do(s, a), more) && Smooth(Do(s, a), more)
    ensures Exec(Do(s, a), more).main.InCycle? && !Exec(Do(s, a), more).code.Ready?
  {
    TokenStep(s, a);
    HandshakeStep(s, a);
    var s1 := Do(s, a);
    if a.Unload? {
      more := RunsOn(s1);
    } else {
      var first := StopComesUp(s1);
      var rest := RunsOn(Exec(s1, first));
      SmoothConcat(s1, first, rest);
      more := first + rest;
    }
  }

  // ---------------------------------------------------------------- runs that go wrong

  lemma {:induction false} Extend(s: State, acts: seq<Action>, a: Action) returns (longer: seq<Action>)
    requires Possible(s, acts) && Enabled(Exec(s, acts), a)
    ensures longer == acts + [a] && Possible(s, longer) && Exec(s, longer) == Do(Exec(s, acts), a)
    ensures Smooth(s, acts) && !Rough(Exec(s, acts), a) ==> Smooth(s, longer)
    decreases |acts|
  {
    hide Enabled, Do, Rough;
    longer := acts + [a];
    if acts == [] {
      assert longer[1..] == [];
    } else {
      var rest := Extend(Do(s, acts[0]), acts[1..], a);
      assert longer[1..] == rest;
    }
  }

  lemma NoSteps() returns (acts: seq<Action>)
    ensures Possible(BOOT, acts) && Smooth(BOOT, acts) && Exec(BOOT, acts) == BOOT
  {
    acts := [];
  }

  lemma Running() returns (acts: seq<Action>)
    ensures Possible(BOOT, acts) && Smooth(BOOT, acts)
    ensures Exec(BOOT, acts) == State(Init, Off, Idle, true, Ready, 0, 0, false, false, false, Untouched)
  {
    hide Possible, Exec, Smooth;
    acts := NoSteps();
    acts := Extend(BOOT, acts, Load);
    acts := Extend(BOOT, acts, SetStart);
    acts := Extend(BOOT, acts, ControlStep);
    acts := Extend(BOOT, acts, MainStep);
  }

  /** A started PLC whose debug thread waits for the cycle while the main task is in config_run__. */
  lemma Cycling() returns (acts: seq<Action>)
    ensures Possible(BOOT, acts) && Smooth(BOOT, acts)
    ensures Exec(BOOT, acts) == State(InCycle, Taking, Idle, true, Ready, 0, 0, true, true, false, Untouched)
  {
    acts := Running();
    hide Possible, Exec, Smooth;
    acts := Extend(BOOT, acts, MainStep);
    acts := Extend(BOOT, acts, Launch);
    acts := Extend(BOOT, acts, DebugStep(true));
    acts := Extend(BOOT, acts, MainStep);
  }

  /** The same PLC with the debug thread publishing and a stop pending. */
  lemma StoppingWhilePublishing() returns (acts: seq<Action>)
    ensures Possible(BOOT, acts) && Smooth(BOOT, acts)
    ensures Exec(BOOT, acts) == State(TestFlag, Publishing, Stopping, false, Ready, 0, 0, true, true, false, Zeroed)
  {
    acts := Cycling();
    hide Possible, Exec, Smooth;
    acts := Extend(BOOT, acts, MainStep);
    acts := Extend(BOOT, acts, DebugStep(true));
    acts := Extend(BOOT, acts, SetStop);
    acts := Extend(BOOT, acts, MainStep);
    acts := Extend(BOOT, acts, MainStep);
  }

  lemma StoppedWhilePublishing() returns (acts: seq<Action>)
    ensures Possible(BOOT, acts) && Smooth(BOOT, acts)
    ensures Exec(BOOT, acts) == State(WaitRun, Publishing, Idle, false, Ready, 0, 0, true, true, false, Zeroed)
  {
    acts := StoppingWhilePublishing();
    hide Possible, Exec, Smooth;
    acts := Extend(BOOT, acts, MainStep);
    acts := Extend(BOOT, acts, MainStep);
    acts := Extend(BOOT, acts, MainStep);
    acts := Extend(BOOT, acts, MainStep);
    acts := Extend(BOOT, acts, ControlStep);
  }

  /** SetTraceVariablesList in the middle of a cycle asks the debug thread to leave and launches it again: a careless
      launch, after which the runtime can publish while config_run__ is running. */
  lemma RetracingInCycleOverlaps() returns (acts: seq<Action>, more: seq<Action>)
    ensures Possible(BOOT, acts) && Smooth(BOOT, acts) && Enabled(Exec(BOOT, acts), Launch)
    ensures var s := Do(Exec(BOOT, acts), Launch); Possible(s, more) && Overlap(Exec(s, more))
  {
    acts := Cycling();
    hide Possible, Exec, Smooth;
    acts := Extend(BOOT, acts, RequestDebugStop);
    acts := Extend(BOOT, acts, DebugStep(false));
    acts := Extend(BOOT, acts, DebugStep(true));
    acts := Extend(BOOT, acts, DebugStep(true));
    more := CarelessStepsOverlap(Exec(BOOT, acts), Launch);
  }

  /** A PLC stopped and started again while the debug thread is publishing: a careless initialisation. */
  lemma RestartWhilePublishingOverlaps() returns (acts: seq<Action>, more: seq<Action>)
    ensures Possible(BOOT, acts) && Smooth(BOOT, acts) && Enabled(Exec(BOOT, acts), MainStep)
    ensures var s := Do(Exec(BOOT, acts), MainStep); Possible(s, more) && Overlap(Exec(s, more))
  {
    acts := StoppedWhilePublishing();
    hide Possible, Exec, Smooth;
    acts := Extend(BOOT, acts, SetStart);
    acts := Extend(BOOT, acts, ControlStep);
    acts := Extend(BOOT, acts, MainStep);
    more := CarelessStepsOverlap(Exec(BOOT, acts), MainStep);
  }

  /** Such a state is reached from boot: a stop is pending, the module can be unloaded, and config_run__ is running. */
  lemma UnloadDuringStop() returns (acts: seq<Action>)
    ensures Possible(BOOT, acts) && Smooth(BOOT, acts)
    ensures var s := Exec(BOOT, acts); Enabled(s, Unload) && StopPending(s) && s.main.InCycle?
  {
    acts := Cycling();
    hide Possible, Exec, Smooth;
    acts := Extend(BOOT, acts, SetStop);
  }
}
