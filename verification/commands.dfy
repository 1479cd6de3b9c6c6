/** The command surface the frontend invokes (start work, short break or
    long break, pause, resume, stop) interleaved with elapsed seconds, and
    what any such sequence of events does to the timer. */
module Commands {
  import opened Timer
  import opened Ticker

  /** Minutes each start command passes to `start_timer`. */
  const WORK_MINUTES: u64 := 25
  const SHORT_BREAK_MINUTES: u64 := 5
  const LONG_BREAK_MINUTES: u64 := 15

  /** `start_work_timer`: a running 25-minute work countdown. */
  function StartWorkTimer(m: Machine): (r: Machine)
    ensures r.status == TimerStatus(Running, Work, 1500, 1500)
    ensures r.ticker == Alive(Work)
  {
    Start(m, Work, WORK_MINUTES)
  }

  /** `start_short_break`: a running 5-minute short break. */
  function StartShortBreak(m: Machine): (r: Machine)
    ensures r.status == TimerStatus(Running, ShortBreak, 300, 300)
    ensures r.ticker == Alive(ShortBreak)
  {
    Start(m, ShortBreak, SHORT_BREAK_MINUTES)
  }

  /** `start_long_break`: a running 15-minute long break. */
  function StartLongBreak(m: Machine): (r: Machine)
    ensures r.status == TimerStatus(Running, LongBreak, 900, 900)
    ensures r.ticker == Alive(LongBreak)
  {
    Start(m, LongBreak, LONG_BREAK_MINUTES)
  }

  /** What can happen to the timer: one of the frontend's commands, or one
      second passing for the countdown loop. */
  datatype Command =
    | StartWork
    | StartShort
    | StartLong
    | PauseTimer
    | ResumeTimer
    | StopTimer
    | Elapse

  function Apply(m: Machine, c: Command): (r: Trace)
    ensures c != Elapse ==> r.events == []
    ensures Valid(m) ==> Valid(r.machine)
  {
    match c
    case StartWork => Trace(StartWorkTimer(m), [])
    case StartShort => Trace(StartShortBreak(m), [])
    case StartLong => Trace(StartLongBreak(m), [])
    case PauseTimer => Trace(Pause(m), [])
    case ResumeTimer => Trace(Resume(m), [])
    case StopTimer => Trace(Stop(m), [])
    case Elapse => Tick(m)
  }

  /** A sequence of commands and seconds, in order, with everything the loop
      emitted on the way. Every machine reached from a valid one is valid. */
  function Run(m: Machine, cs: seq<Command>): (r: Trace)
    ensures Valid(m) ==> Valid(r.machine)
    decreases |cs|
  {
    if cs == [] then Trace(m, [])
    else
      var first := Apply(m, cs[0]);
      var rest := Run(first.machine, cs[1..]);
      Trace(rest.machine, first.events + rest.events)
  }

  /** `n` seconds with no command. */
  function Elapses(n: nat): seq<Command> {
    seq(n, _ => Elapse)
  }

  /** `t` followed by the sequence `cs`. */
  function RunAfter(t: Trace, cs: seq<Command>): Trace {
    Prepend(t.events, Run(t.machine, cs))
  }

  lemma PrependRunAfter(e: seq<Event>, t: Trace, cs: seq<Command>)
    ensures Prepend(e, RunAfter(t, cs)) == RunAfter(Prepend(e, t), cs)
  {
    assert e + (t.events + Run(t.machine, cs).events) == (e + t.events) + Run(t.machine, cs).events;
  }

  /** Running two sequences one after the other is running their
      concatenation. */
  lemma {:induction false} RunAppend(m: Machine, a: seq<Command>, b: seq<Command>)
    ensures Run(m, a + b) == RunAfter(Run(m, a), b)
    decreases |a|
  {
    if a == [] {
      assert a + b == b;
    } else {
      assert (a + b)[0] == a[0];
      assert (a + b)[1..] == a[1..] + b;
      var first := Apply(m, a[0]);
      RunAppend(first.machine, a[1..], b);
      assert Run(m, a + b) == Prepend(first.events, Run(first.machine, a[1..] + b));
      assert Run(m, a) == Prepend(first.events, Run(first.machine, a[1..]));
      PrependRunAfter(first.events, Run(first.machine, a[1..]), b);
    }
  }

  /** Seconds with no command in between are the loop's own repetition. */
  lemma {:induction false} RunElapses(m: Machine, n: nat)
    ensures Run(m, Elapses(n)) == Ticks(m, n)
    decreases n
  {
    if n > 0 {
      assert Elapses(n)[1..] == Elapses(n - 1);
      RunElapses(Tick(m).machine, n - 1);
    }
  }

  /** Every machine the application can reach is valid: the countdown never
      exceeds its total and a completed timer shows zero. */
  lemma ReachableIsValid(cs: seq<Command>)
    ensures Run(New(), cs).machine.status.remainingSeconds <= Run(New(), cs).machine.status.totalSeconds
    ensures Run(New(), cs).machine.status.state == Completed ==>
              Run(New(), cs).machine.status.remainingSeconds == 0
  {
    assert Valid(Run(New(), cs).machine);
  }

  /** How many start commands a sequence holds. */
  function Starts(cs: seq<Command>): nat
    decreases |cs|
  {
    if cs == [] then 0
    else (if cs[0] in {StartWork, StartShort, StartLong} then 1 else 0) + Starts(cs[1..])
  }

  /** Each loop completes at most once: the completions a sequence emits,
      plus one if a loop is still alive at its end, never exceed the loops
      spawned by its starts plus the one alive at its beginning. Every
      completion comes with exactly one notification. */
  lemma {:induction false} CompletionsBoundedByStarts(m: Machine, cs: seq<Command>)
    ensures Count(Run(m, cs).events, CompletedKind) + (if Run(m, cs).machine.ticker.Alive? then 1 else 0)
              <= Starts(cs) + (if m.ticker.Alive? then 1 else 0)
    ensures Count(Run(m, cs).events, NotifyKind) == Count(Run(m, cs).events, CompletedKind)
    decreases |cs|
  {
    if cs != [] {
      var first := Apply(m, cs[0]);
      var rest := Run(first.machine, cs[1..]);
      CompletionsBoundedByStarts(first.machine, cs[1..]);
      CountAppend(first.events, rest.events, CompletedKind);
      CountAppend(first.events, rest.events, NotifyKind);
      if cs[0] == Elapse && m.ticker.Alive? && m.status.state == Running && m.status.remainingSeconds == 0 {
        CompletionEventsCount(m, CompletedKind);
        CompletionEventsCount(m, NotifyKind);
      } else if cs[0] == Elapse && first.events != [] {
        assert first.events == [TickEvt(first.machine.status)];
      }
    }
  }

  /** Starting a work session from launch: the status reads Running, Work,
      1500 of 1500 seconds. */
  lemma StartWorkFromLaunch()
    ensures Run(New(), [StartWork]).machine.status == TimerStatus(Running, Work, 1500, 1500)
    ensures Run(New(), [StartWork]).events == []
  {
  }

  /** A command followed by `n` seconds is the command and then `n` steps of
      the loop. */
  lemma CommandThenSeconds(m: Machine, c: Command, n: nat)
    requires c != Elapse
    ensures Run(m, [c] + Elapses(n)) == Ticks(Apply(m, c).machine, n)
  {
    RunAppend(m, [c], Elapses(n));
    assert Run(m, [c]) == Trace(Apply(m, c).machine, []);
    RunElapses(Apply(m, c).machine, n);
  }

  /** A work session left alone: after 1500 seconds it shows 00:00 and is
      still running with nothing completed. */
  lemma WorkSessionAtZero()
    ensures Run(New(), [StartWork] + Elapses(1500)).machine.status == TimerStatus(Running, Work, 0, 1500)
    ensures Count(Run(New(), [StartWork] + Elapses(1500)).events, CompletedKind) == 0
  {
    CommandThenSeconds(New(), StartWork, 1500);
    CountdownRuns(StartWorkTimer(New()), 1500);
  }

  /** A work session left alone completes on its 1501st second, with one
      completion event for Work and one notification "Work session
      completed!", and nothing more however long time runs on. */
  lemma WorkSessionCompletes(n: nat)
    requires n > 1500
    ensures Run(New(), [StartWork] + Elapses(n)).machine.status == TimerStatus(Completed, Work, 0, 1500)
    ensures |Run(New(), [StartWork] + Elapses(n)).events| == 1503
    ensures Count(Run(New(), [StartWork] + Elapses(n)).events, CompletedKind) == 1
    ensures Count(Run(New(), [StartWork] + Elapses(n)).events, NotifyKind) == 1
    ensures Run(New(), [StartWork] + Elapses(n)).events[1501] == CompletedEvt(Work)
    ensures Run(New(), [StartWork] + Elapses(n)).events[1502] == Notify("Pomodoro Timer", "Work session completed!")
  {
    CommandThenSeconds(New(), StartWork, n);
    CountdownCompletes(StartWorkTimer(New()), n);
  }

  /** A short break paused before its first second: it stays paused at 300
      seconds and nothing is emitted, however long the pause lasts; the loop
      is gone after the first second. */
  lemma PausedShortBreakHolds(n: nat)
    ensures Run(New(), [StartShort, PauseTimer] + Elapses(n)).machine.status ==
              TimerStatus(Paused, ShortBreak, 300, 300)
    ensures Run(New(), [StartShort, PauseTimer] + Elapses(n)).events == []
    ensures n > 0 ==> Run(New(), [StartShort, PauseTimer] + Elapses(n)).machine.ticker == Dead
  {
    var paused := Pause(StartShortBreak(New()));
    RunAppend(New(), [StartShort, PauseTimer], Elapses(n));
    assert Run(New(), [StartShort, PauseTimer]).machine == paused;
    RunElapses(paused, n);
    if n > 0 {
      NoLoopNoProgress(Tick(paused).machine, n - 1);
    }
  }

  /** A stop is silent: the loop notices it on the next second and ends
      without emitting anything, and the counters keep their values. */
  lemma StopSilencesLoop(m: Machine, n: nat)
    ensures Run(m, [StopTimer] + Elapses(n)).machine.status == Stop(m).status
    ensures Run(m, [StopTimer] + Elapses(n)).events == []
    ensures n > 0 ==> Run(m, [StopTimer] + Elapses(n)).machine.ticker == Dead
  {
    RunAppend(m, [StopTimer], Elapses(n));
    assert Run(m, [StopTimer]).machine == Stop(m);
    RunElapses(Stop(m), n);
    if n > 0 {
      NoLoopNoProgress(Tick(Stop(m)).machine, n - 1);
    }
  }

  /** As written, a work session paused for a second and then resumed reads
      Running forever but never counts down and never completes. */
  lemma ResumeAfterPausedSecondStalls(n: nat)
    ensures Run(New(), [StartWork, PauseTimer, Elapse, ResumeTimer] + Elapses(n)).machine.status ==
              TimerStatus(Running, Work, 1500, 1500)
    ensures Run(New(), [StartWork, PauseTimer, Elapse, ResumeTimer] + Elapses(n)).events == []
  {
    var resumed := Resume(Tick(Pause(StartWorkTimer(New()))).machine);
    RunAppend(New(), [StartWork, PauseTimer, Elapse, ResumeTimer], Elapses(n));
    assert Run(New(), [StartWork, PauseTimer, Elapse, ResumeTimer]) == Trace(resumed, []);
    RunElapses(resumed, n);
    NoLoopNoProgress(resumed, n);
  }

  /** A pause and resume within the same second leave the loop alive, so
      that work session still completes 1501 seconds later. */
  lemma QuickResumeCompletes(n: nat)
    requires n > 1500
    ensures Run(New(), [StartWork, PauseTimer, ResumeTimer] + Elapses(n)).machine.status ==
              TimerStatus(Completed, Work, 0, 1500)
    ensures Count(Run(New(), [StartWork, PauseTimer, ResumeTimer] + Elapses(n)).events, CompletedKind) == 1
  {
    var started := StartWorkTimer(New());
    var prefix := [StartWork, PauseTimer, ResumeTimer];
    PauseResumeInverse(started);
    assert Run(New(), prefix) == Trace(started, []) by {
      assert prefix[1..][1..][1..] == [];
    }
    RunAppend(New(), prefix, Elapses(n));
    RunElapses(started, n);
    assert Run(New(), prefix + Elapses(n)) == Ticks(started, n);
    CountdownCompletes(started, n);
  }

  /** With the repaired resume, the same work session paused for a second
      completes 1501 seconds after the resume, once. */
  lemma RearmedResumeAfterPausedSecondCompletes(n: nat)
    requires n > 1500
    ensures Ticks(ResumeRearmed(Run(New(), [StartWork, PauseTimer, Elapse]).machine), n).machine.status ==
              TimerStatus(Completed, Work, 0, 1500)
    ensures Count(Ticks(ResumeRearmed(Run(New(), [StartWork, PauseTimer, Elapse]).machine), n).events,
                  CompletedKind) == 1
  {
    var paused := Tick(Pause(StartWorkTimer(New()))).machine;
    assert Run(New(), [StartWork, PauseTimer, Elapse]).machine == paused;
    CountdownCompletes(ResumeRearmed(paused), n);
  }
}
