/** The monitor that decides, from the results of drawing frames, when the crash recovery child can be killed and
    when this process has to exit so that the child takes over. */
module CrashRecovery {
  import opened Options

  const NUM_DRAW_ERRORS_BEFORE_EXITING := 3
  const NUM_SUCCESSFUL_DRAW_FRAMES_PER_WINDOW := 10

  type WindowId = nat

  datatype DrawFrameResult = Successful | Errored

  /** The calls the application makes. */
  datatype Call = DrawFrameError(window: WindowId) | FrameDrawn(window: WindowId) | Teardown

  /** The per-window records of a recovery child, as values. */
  datatype Child = Child(
    errors: map<WindowId, nat>,
    successes: map<WindowId, nat>,
    renders: map<WindowId, seq<DrawFrameResult>>,
    alive: bool)

  /** The whole monitor as a value: the child if there is one, the global running flag, whether the process has exited,
      and how often the torn-down event was emitted. */
  datatype State = State(child: Option<Child>, running: bool, exited: bool, tornDown: nat)

  function Get<V>(m: map<WindowId, V>, w: WindowId, default: V): V {
    if w in m then m[w] else default
  }

  const NEW_CHILD := Child(map[], map[], map[], true)

  // ----- the counters, defined by the history alone

  function Successes(h: seq<DrawFrameResult>): nat {
    if h == [] then 0 else Successes(h[..|h| - 1]) + if h[|h| - 1] == Successful then 1 else 0
  }

  /** The length of the run of errors at the end. */
  function TrailingErrors(h: seq<DrawFrameResult>): nat {
    if h == [] || h[|h| - 1] == Successful then 0 else TrailingErrors(h[..|h| - 1]) + 1
  }

  // ----- one call

  function Killed(c: Child): Child {
    c.(alive := false)
  }

  function Record(c: Child, w: WindowId, r: DrawFrameResult): Child {
    c.(renders := c.renders[w := Get(c.renders, w, []) + [r]])
  }

  /** One call. After an exit nothing happens any more. */
  function Step(s: State, call: Call): State {
    if s.exited then s
    else
      match call
      case DrawFrameError(w) =>
        if s.child.None? then s
        else
          var n := Get(s.child.value.errors, w, 0) + 1;
          var c := Record(s.child.value, w, Errored);
          s.(child := Some(c.(errors := c.errors[w := n])), exited := n >= NUM_DRAW_ERRORS_BEFORE_EXITING)
      case FrameDrawn(w) =>
        if s.child.None? then s
        else
          var n := Get(s.child.value.successes, w, 0) + 1;
          var c := Record(s.child.value, w, Successful);
          var c' := c.(errors := c.errors[w := 0], successes := c.successes[w := n]);
          if n >= NUM_SUCCESSFUL_DRAW_FRAMES_PER_WINDOW then
            // The killed child is not put back.
            State(None, s.running && !c.alive, false, s.tornDown + 1)
          else if c'.alive then s.(child := Some(c'))
          else s.(child := None, tornDown := s.tornDown + 1)
      case Teardown =>
        if s.child.None? then s
        else State(None, s.running && !s.child.value.alive, false, s.tornDown)
  }

  function Run(s: State, calls: seq<Call>): State {
    if calls == [] then s else Step(Run(s, calls[..|calls| - 1]), calls[|calls| - 1])
  }

  // ----- the mutable objects

  /** What is shared by the whole process: the running flag, the exit, and the emitted events. */
  class Process {
    var crashRecoveryRunning: bool
    var exited: bool
    var tornDownEvents: nat

    constructor (running: bool)
      ensures crashRecoveryRunning == running && !exited && tornDownEvents == 0
    {
      crashRecoveryRunning, exited, tornDownEvents := running, false, 0;
    }
  }

  class CrashRecoveryProcess {
    var consecutiveErrors: map<WindowId, nat>
    var successfulFrames: map<WindowId, nat>
    var sequenceOfRenders: map<WindowId, seq<DrawFrameResult>>
    var isAlive: bool

    ghost function AsChild(): Child
      reads this
    {
      Child(consecutiveErrors, successfulFrames, sequenceOfRenders, isAlive)
    }

    constructor ()
      ensures AsChild() == NEW_CHILD
    {
      consecutiveErrors, successfulFrames, sequenceOfRenders, isAlive := map[], map[], map[], true;
    }

    /** Kills the child; a no-op once it is dead. */
    method Kill(process: Process)
      modifies this`isAlive, process`crashRecoveryRunning
      ensures !isAlive && process.crashRecoveryRunning == (old(process.crashRecoveryRunning) && !old(isAlive))
    {
      if !isAlive {
        return;
      }
      process.crashRecoveryRunning := false;
      isAlive := false;
    }

    method HandleDrawFrameError(window: WindowId, process: Process)
      modifies this`sequenceOfRenders, this`consecutiveErrors, process`exited
      ensures var n := Get(old(consecutiveErrors), window, 0) + 1;
              AsChild() == Record(old(AsChild()), window, Errored).(errors := old(consecutiveErrors)[window := n]) &&
              process.exited == (old(process.exited) || n >= NUM_DRAW_ERRORS_BEFORE_EXITING)
    {
      sequenceOfRenders := sequenceOfRenders[window := Get(sequenceOfRenders, window, []) + [Errored]];
      var numErrors := Get(consecutiveErrors, window, 0) + 1;
      consecutiveErrors := consecutiveErrors[window := numErrors];
      if numErrors >= NUM_DRAW_ERRORS_BEFORE_EXITING {
        process.exited := true;
      }
    }

    method HandleFrameDrawn(window: WindowId, process: Process)
      modifies this, process`crashRecoveryRunning
      ensures var n := Get(old(successfulFrames), window, 0) + 1;
              var c := Record(old(AsChild()), window, Successful).(
                         errors := old(consecutiveErrors)[window := 0],
                         successes := old(successfulFrames)[window := n]);
              if n >= NUM_SUCCESSFUL_DRAW_FRAMES_PER_WINDOW then
                AsChild() == Killed(c) &&
                process.crashRecoveryRunning == (old(process.crashRecoveryRunning) && !c.alive)
              else AsChild() == c && process.crashRecoveryRunning == old(process.crashRecoveryRunning)
    {
      consecutiveErrors := consecutiveErrors[window := 0];
      sequenceOfRenders := sequenceOfRenders[window := Get(sequenceOfRenders, window, []) + [Successful]];
      var numSuccessfulDraws := Get(successfulFrames, window, 0) + 1;
      successfulFrames := successfulFrames[window := numSuccessfulDraws];
      if numSuccessfulDraws >= NUM_SUCCESSFUL_DRAW_FRAMES_PER_WINDOW {
        Kill(process);
      }
    }
  }

  class Monitor {
    var childProcess: CrashRecoveryProcess?
    const process: Process

    ghost function AsState(): State
      reads this, childProcess, process
    {
      State(if childProcess == null then None else Some(childProcess.AsChild()),
            process.crashRecoveryRunning, process.exited, process.tornDownEvents)
    }

    /** `CrashRecovery::new`, after the decision whether a child was spawned. */
    constructor (spawned: bool)
      ensures AsState() == State(if spawned then Some(NEW_CHILD) else None, spawned, false, 0)
      ensures fresh(process) && (childProcess != null ==> fresh(childProcess))
    {
      process := new Process(spawned);
      if spawned {
        childProcess := new CrashRecoveryProcess();
      } else {
        childProcess := null;
      }
    }

    method OnDrawFrameError(window: WindowId)
      requires !process.exited
      modifies childProcess, process
      ensures AsState() == Step(old(AsState()), DrawFrameError(window))
    {
      if childProcess != null {
        childProcess.HandleDrawFrameError(window, process);
      }
    }

    method OnFrameDrawn(window: WindowId)
      requires !process.exited
      modifies this, childProcess, process
      ensures AsState() == Step(old(AsState()), FrameDrawn(window))
      ensures old(childProcess) != null && childProcess == null ==>
                !old(childProcess).isAlive && process.tornDownEvents == old(process.tornDownEvents) + 1
    {
      var child := childProcess;
      childProcess := null;
      if child != null {
        child.HandleFrameDrawn(window, process);
        if !child.isAlive {
          process.tornDownEvents := process.tornDownEvents + 1;
        }
        if child.isAlive {
          childProcess := child;
        }
      }
    }

    method TearDown()
      requires !process.exited
      modifies this, childProcess, process
      ensures AsState() == Step(old(AsState()), Teardown)
      ensures childProcess == null && process.exited == old(process.exited)
      ensures process.tornDownEvents == old(process.tornDownEvents)
      ensures old(childProcess) != null ==> !old(childProcess).isAlive
      ensures old(childProcess) != null && old(childProcess.isAlive) ==> !process.crashRecoveryRunning
      ensures old(childProcess) == null ==> process.crashRecoveryRunning == old(process.crashRecoveryRunning)
    {
      var child := childProcess;
      childProcess := null;
      if child != null {
        child.Kill(process);
      }
    }
  }

  // ----- whole runs

  /** The process as it starts, with or without a recovery child. */
  function Start(spawned: bool): State {
    State(if spawned then Some(NEW_CHILD) else None, spawned, false, 0)
  }

  /** The frame results among the calls that concern one window. */
  function Frames(calls: seq<Call>, w: WindowId): seq<DrawFrameResult> {
    if calls == [] then []
    else
      Frames(calls[..|calls| - 1], w) +
      match calls[|calls| - 1]
      case DrawFrameError(v) => if v == w then [Errored] else []
      case FrameDrawn(v) => if v == w then [Successful] else []
      case Teardown => []
  }

  /** Between calls the running flag, the presence of the child and its liveness agree, and the torn-down event was
      emitted at most once, never while there is a child. */
  predicate Agree(s: State) {
    && (s.running <==> s.child.Some?)
    && (s.child.Some? ==> s.child.value.alive && s.tornDown == 0)
    && s.tornDown <= 1
    && (s.exited ==> s.child.Some?)
  }

  lemma {:induction false} RunsAgree(spawned: bool, calls: seq<Call>)
    ensures Agree(Run(Start(spawned), calls))
  {
    if calls != [] {
      RunsAgree(spawned, calls[..|calls| - 1]);
    }
  }

  /** The process exits only on a draw error, and only while the child that takes over is alive. */
  lemma ExitsOnlyWithALivingChild(spawned: bool, calls: seq<Call>, call: Call)
    requires var s := Run(Start(spawned), calls); !s.exited && Step(s, call).exited
    ensures call.DrawFrameError?
    ensures var s := Run(Start(spawned), calls);
            && s.child.Some? && s.child.value.alive && s.running
            && Step(s, call).child.Some? && Step(s, call).child.value.alive
  {
    RunsAgree(spawned, calls);
  }

  /** The counters of a window are functions of its history. */
  predicate CountersMatch(c: Child, w: WindowId) {
    var h := Get(c.renders, w, []);
    Get(c.errors, w, 0) == TrailingErrors(h) && Get(c.successes, w, 0) == Successes(h)
  }

  /** No window has got so far that the child would have been killed or the process would have exited. The last
      conjunct is the bound that follows: between two successes there are at most two errors. */
  predicate BelowLimits(c: Child, w: WindowId) {
    var h := Get(c.renders, w, []);
    && Successes(h) < NUM_SUCCESSFUL_DRAW_FRAMES_PER_WINDOW
    && TrailingErrors(h) < NUM_DRAW_ERRORS_BEFORE_EXITING
    && |h| <= NUM_DRAW_ERRORS_BEFORE_EXITING * Successes(h) + TrailingErrors(h)
  }

  lemma AppendResult(h: seq<DrawFrameResult>, r: DrawFrameResult)
    ensures Successes(h + [r]) == Successes(h) + if r == Successful then 1 else 0
    ensures TrailingErrors(h + [r]) == if r == Successful then 0 else TrailingErrors(h) + 1
  {
    assert (h + [r])[..|h|] == h;
  }

  lemma StepRecords(s: State, call: Call, w: WindowId)
    requires !s.exited && s.child.Some?
    ensures var s' := Step(s, call);
            s'.child.Some? ==>
              Get(s'.child.value.renders, w, []) == Get(s.child.value.renders, w, []) + Frames([call], w)
  {
    assert [call][..0] == [];
  }

  lemma StepKeepsCounters(s: State, call: Call, w: WindowId)
    requires Agree(s) && !s.exited && s.child.Some?
    requires CountersMatch(s.child.value, w) && BelowLimits(s.child.value, w)
    ensures var s' := Step(s, call);
            s'.child.Some? ==> CountersMatch(s'.child.value, w) && (!s'.exited ==> BelowLimits(s'.child.value, w))
  {
    var h := Get(s.child.value.renders, w, []);
    if call.FrameDrawn? {
      AppendResult(h, Successful);
    } else if call.DrawFrameError? {
      AppendResult(h, Errored);
    }
  }

  /** In every run that still has its child, up to and including an exit, the records of every window are those of the
      calls made, its error counter is the length of the trailing error run, and its success counter the number of
      successes. */
  lemma {:induction false} CountersAreTheHistory(calls: seq<Call>, w: WindowId)
    requires Run(Start(true), calls).child.Some?
    requires calls != [] ==> !Run(Start(true), calls[..|calls| - 1]).exited
    ensures var c := Run(Start(true), calls).child.value;
            && Get(c.renders, w, []) == Frames(calls, w) && CountersMatch(c, w)
            && (!Run(Start(true), calls).exited ==> BelowLimits(c, w))
  {
    if calls != [] {
      var before, call := calls[..|calls| - 1], calls[|calls| - 1];
      RunsAgree(true, before);
      CountersAreTheHistory(before, w);
      StepKeepsCounters(Run(Start(true), before), call, w);
      StepRecords(Run(Start(true), before), call, w);
      assert Frames(calls, w) == Frames(before, w) + Frames([call], w) by {
        assert [call][..0] == [];
      }
    }
  }

  /** While a child lives, a draw error of a window ends the process iff the two frames before it failed as well, and a
      successful frame ends the child iff nine were successful before it. */
  lemma {:induction false} NextFrameEndsIff(calls: seq<Call>, w: WindowId)
    requires var s := Run(Start(true), calls); s.child.Some? && !s.exited
    ensures var s := Run(Start(true), calls);
            && (Step(s, DrawFrameError(w)).exited <==> TrailingErrors(Frames(calls, w)) == 2)
            && (Step(s, FrameDrawn(w)).child.None? <==> Successes(Frames(calls, w)) == 9)
  {
    RunsAgree(true, calls);
    CountersAreTheHistory(calls, w);
  }

  /** How the recovery ends: it goes on, the child was torn down from outside, it was killed after enough good frames,
      or the process has exited after too many bad ones. */
  datatype Ending = GoesOn | TornDown | Recovered | Exited

  /** The ending by the calls alone: that of the first call that makes one. */
  function EndingOf(calls: seq<Call>): Ending {
    if calls == [] then GoesOn
    else
      var before := EndingOf(calls[..|calls| - 1]);
      if before != GoesOn then before
      else
        match calls[|calls| - 1]
        case Teardown => TornDown
        case FrameDrawn(w) => if Successes(Frames(calls, w)) == 10 then Recovered else GoesOn
        case DrawFrameError(w) => if TrailingErrors(Frames(calls, w)) == 3 then Exited else GoesOn
  }

  lemma {:induction false} NextEnding(s: State, call: Call, next: State, h: seq<DrawFrameResult>)
    requires Agree(s) && s.child.Some? && !s.exited && next == Step(s, call)
    requires !call.Teardown? ==>
               Get(s.child.value.errors, call.window, 0) == TrailingErrors(h) < 3 &&
               Get(s.child.value.successes, call.window, 0) == Successes(h) < 10
    ensures match call
            case Teardown => next.child.None? && !next.exited && next.tornDown == 0
            case DrawFrameError(_) =>
              next.child.Some? && (next.exited <==> TrailingErrors(h + [Errored]) == 3) && next.tornDown == 0
            case FrameDrawn(_) =>
              var last := Successes(h + [Successful]) == 10;
              (next.child.None? <==> last) && !next.exited && next.tornDown == if last then 1 else 0
  {
    AppendResult(h, Errored);
    AppendResult(h, Successful);
  }

  lemma {:induction false} FramesOfNext(calls: seq<Call>)
    requires calls != [] && !calls[|calls| - 1].Teardown?
    ensures var call := calls[|calls| - 1];
            Frames(calls, call.window) == Frames(calls[..|calls| - 1], call.window) +
                                          [if call.FrameDrawn? then Successful else Errored]
  {
  }

  /** Every run ends as its calls say. There is a child until it is torn down or the recovery has succeeded; the process
      exits exactly on a third error in a row of one window; and the torn-down event is emitted exactly if a tenth
      success of one window comes before all that. */
  lemma {:induction false} RunsEndAsTheirCallsSay(calls: seq<Call>, s: State, ending: Ending)
    requires s == Run(Start(true), calls) && ending == EndingOf(calls)
    ensures s.child.Some? <==> ending in {GoesOn, Exited}
    ensures s.exited <==> ending == Exited
    ensures s.tornDown == if ending == Recovered then 1 else 0
  {
    if calls != [] {
      var init, call := calls[..|calls| - 1], calls[|calls| - 1];
      var before := Run(Start(true), init);
      RunsEndAsTheirCallsSay(init, before, EndingOf(init));
      RunsAgree(true, init);
      if EndingOf(init) == GoesOn {
        var w := if call.Teardown? then 0 else call.window;
        CountersAreTheHistory(init, w);
        NextEnding(before, call, s, Frames(init, w));
        if !call.Teardown? {
          FramesOfNext(calls);
        }
      }
    }
  }

  /** Without a child nothing ever happens. */
  lemma {:induction false} NothingWithoutAChild(calls: seq<Call>)
    ensures Run(Start(false), calls) == Start(false)
  {
    if calls != [] {
      NothingWithoutAChild(calls[..|calls| - 1]);
    }
  }

  /** While the process has not exited, there is a child iff one was spawned, no teardown has been called, and no window
      has had ten successes. */
  lemma {:induction false} ChildIsPresentIff(spawned: bool, calls: seq<Call>)
    requires !Run(Start(spawned), calls).exited
    ensures Run(Start(spawned), calls).child.Some? <==>
            spawned && Teardown !in calls && NoTenth(calls)
  {
    if !spawned {
      NothingWithoutAChild(calls);
    } else {
      RunsEndAsTheirCallsSay(calls, Run(Start(true), calls), EndingOf(calls));
      GoesOnIff(calls);
    }
  }

  /** No window has had ten successes. */
  ghost predicate NoTenth(calls: seq<Call>) {
    forall w :: Successes(Frames(calls, w)) < 10
  }

  lemma {:induction false} GoesOnIff(calls: seq<Call>)
    requires EndingOf(calls) != Exited
    ensures EndingOf(calls) == GoesOn <==> Teardown !in calls && NoTenth(calls)
  {
    if calls != [] {
      var before, call := calls[..|calls| - 1], calls[|calls| - 1];
      assert calls == before + [call];
      GoesOnIff(before);
      NextNoTenth(before, call, calls);
      if NoTenth(before) && call.FrameDrawn? {
        TenthIsNext(before, call, calls);
      }
      assert Teardown in calls <==> Teardown in before || call.Teardown?;
    }
  }

  lemma {:induction false} TenthIsNext(before: seq<Call>, call: Call, calls: seq<Call>)
    requires calls == before + [call] && NoTenth(before) && call.FrameDrawn?
    ensures Successes(Frames(calls, call.window)) <= 10
  {
    FramesGrow(before, call, calls, call.window);
    assert Successes(Frames(before, call.window)) < 10;
  }

  lemma {:induction false} NextNoTenth(before: seq<Call>, call: Call, calls: seq<Call>)
    requires calls == before + [call]
    ensures NoTenth(calls) <==> NoTenth(before) && (call.FrameDrawn? ==> Successes(Frames(calls, call.window)) < 10)
  {
    forall w
      ensures Successes(Frames(calls, w)) == Successes(Frames(before, w)) + if call == FrameDrawn(w) then 1 else 0
    {
      FramesGrow(before, call, calls, w);
    }
  }

  lemma {:induction false} FramesGrow(before: seq<Call>, call: Call, calls: seq<Call>, w: WindowId)
    requires calls == before + [call]
    ensures Successes(Frames(calls, w)) == Successes(Frames(before, w)) + if call == FrameDrawn(w) then 1 else 0
  {
    assert calls[..|calls| - 1] == before;
    if call == FrameDrawn(w) {
      AppendResult(Frames(before, w), Successful);
    } else if call == DrawFrameError(w) {
      AppendResult(Frames(before, w), Errored);
    } else {
      assert Frames(calls, w) == Frames(before, w) + [];
      assert Frames(before, w) + [] == Frames(before, w);
    }
  }

  /** While the child lives no window has had more than 29 frame results. */
  lemma AtMost29Frames(calls: seq<Call>, w: WindowId)
    requires var s := Run(Start(true), calls); s.child.Some? && !s.exited
    ensures |Frames(calls, w)| <= 29
    ensures |Frames(calls, w)| == 29 ==> Successes(Frames(calls, w)) == 9 && TrailingErrors(Frames(calls, w)) == 2
  {
    CountersAreTheHistory(calls, w);
  }

  /** The 30th frame result of one window always ends in a killed child or an exit, whatever it is. */
  lemma ThirtiethFrameEndsTheRecovery(calls: seq<Call>, w: WindowId)
    requires |Frames(calls, w)| >= 30
    ensures var s := Run(Start(true), calls); s.child.None? || s.exited
  {
    var s := Run(Start(true), calls);
    if s.child.Some? && !s.exited {
      AtMost29Frames(calls, w);
    }
  }

  // ----- the bound is reached

  /** Nine times two errors and a success, for window 0. */
  function Rounds(n: nat): seq<Call> {
    if n == 0 then [] else Rounds(n - 1) + [DrawFrameError(0)] + [DrawFrameError(0)] + [FrameDrawn(0)]
  }

  lemma RunAppend(s: State, calls: seq<Call>, call: Call)
    ensures Run(s, calls + [call]) == Step(Run(s, calls), call)
    ensures Frames(calls + [call], 0) == Frames(calls, 0) + Frames([call], 0)
  {
    assert (calls + [call])[..|calls|] == calls;
    assert [call][..0] == [];
  }

  lemma {:induction false} RoundsSurvive(n: nat)
    requires n <= 9
    ensures var s := Run(Start(true), Rounds(n));
            && s.child.Some? && !s.exited
            && Get(s.child.value.errors, 0, 0) == 0 && Get(s.child.value.successes, 0, 0) == n
    ensures |Frames(Rounds(n), 0)| == 3 * n
  {
    if n > 0 {
      RoundsSurvive(n - 1);
      RunsAgree(true, Rounds(n - 1));
      RunAppend(Start(true), Rounds(n - 1), DrawFrameError(0));
      RunAppend(Start(true), Rounds(n - 1) + [DrawFrameError(0)], DrawFrameError(0));
      RunAppend(Start(true), Rounds(n - 1) + [DrawFrameError(0)] + [DrawFrameError(0)], FrameDrawn(0));
    }
  }

  /** The bound of 29 is exact: this run has it, and its child lives. */
  lemma BoundIsReached()
    ensures var calls := Rounds(9) + [DrawFrameError(0)] + [DrawFrameError(0)];
            var s := Run(Start(true), calls);
            s.child.Some? && s.child.value.alive && !s.exited && |Frames(calls, 0)| == 29
  {
    RoundsSurvive(9);
    RunsAgree(true, Rounds(9));
    RunAppend(Start(true), Rounds(9), DrawFrameError(0));
    RunAppend(Start(true), Rounds(9) + [DrawFrameError(0)], DrawFrameError(0));
  }
}
