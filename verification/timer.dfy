/** The backend timer of the Pomodoro application: the status record the
    frontend reads, the background countdown loop spawned by a start, and
    the four commands that change the status.

    The loop is not modelled as a task: `Ticker` records whether the loop
    spawned by the last start still exists and which timer type it captured
    when it was spawned. */
module Timer {

  /** Rust's `u64` range; the second counters are `u64` in the source. */
  const U64_LIMIT: int := 0x1_0000_0000_0000_0000
  type u64 = x: int | 0 <= x < U64_LIMIT

  const SECONDS_PER_MINUTE: nat := 60

  /** Minutes of the status created at start-up. */
  const INITIAL_MINUTES: nat := 25

  datatype TimerState = Idle | Running | Paused | Completed

  datatype TimerType = Work | ShortBreak | LongBreak

  datatype TimerStatus = TimerStatus(
    state: TimerState,
    timerType: TimerType,
    remainingSeconds: u64,
    totalSeconds: u64)

  /** The countdown loop: `Alive(t)` while the loop spawned by a start still
      runs, `t` being the timer type that start was given. */
  datatype Ticker = Dead | Alive(captured: TimerType)

  /** The shared status together with the loop that may still update it. */
  datatype Machine = Machine(status: TimerStatus, ticker: Ticker)

  /** What every operation keeps: the countdown never exceeds its total, a
      completed timer has nothing left, and a living loop counts down the
      timer type it was started for. */
  predicate Valid(m: Machine) {
    && m.status.remainingSeconds <= m.status.totalSeconds
    && (m.status.state == Completed ==> m.status.remainingSeconds == 0)
    && (m.ticker.Alive? ==> m.ticker.captured == m.status.timerType)
  }

  /** `minutes * 60` as Rust's `u64` multiplication computes it in a release
      build, where overflow wraps around. */
  function MinutesToSeconds(minutes: u64): (r: u64)
    ensures minutes * SECONDS_PER_MINUTE < U64_LIMIT ==> r == minutes * SECONDS_PER_MINUTE
    ensures r < U64_LIMIT && (r - minutes * SECONDS_PER_MINUTE) % U64_LIMIT == 0
  {
    (minutes * SECONDS_PER_MINUTE) % U64_LIMIT
  }

  /** `TimerManager::new`: an idle 25-minute work timer and no loop. */
  function New(): (r: Machine)
    ensures Valid(r)
    ensures r.status.state == Idle && r.status.timerType == Work
    ensures r.status.remainingSeconds == r.status.totalSeconds == 1500
    ensures r.ticker == Dead
  {
    var seconds := INITIAL_MINUTES * SECONDS_PER_MINUTE;
    Machine(TimerStatus(Idle, Work, seconds, seconds), Dead)
  }

  /** `start_timer`: from any state, a full countdown of `minutes` of the
      given type, and a freshly spawned loop that captured that type. */
  function Start(m: Machine, timerType: TimerType, minutes: u64): (r: Machine)
    ensures Valid(r)
    ensures r.status.state == Running && r.status.timerType == timerType
    ensures r.status.remainingSeconds == r.status.totalSeconds
    ensures minutes * SECONDS_PER_MINUTE < U64_LIMIT ==> r.status.totalSeconds == minutes * SECONDS_PER_MINUTE
    ensures r.ticker == Alive(timerType)
  {
    var seconds := MinutesToSeconds(minutes);
    Machine(TimerStatus(Running, timerType, seconds, seconds), Alive(timerType))
  }

  /** `pause_timer`: a running timer becomes paused; in every other state
      nothing changes. The loop is not told anything. */
  function Pause(m: Machine): (r: Machine)
    ensures m.status.state == Running ==> r.status.state == Paused
    ensures m.status.state != Running ==> r == m
    ensures r.status.timerType == m.status.timerType
    ensures r.status.remainingSeconds == m.status.remainingSeconds
    ensures r.status.totalSeconds == m.status.totalSeconds
    ensures r.ticker == m.ticker
    ensures Valid(m) ==> Valid(r)
  {
    if m.status.state == Running then m.(status := m.status.(state := Paused)) else m
  }

  /** `resume_timer`: a paused timer becomes running; in every other state
      nothing changes. No loop is spawned. */
  function Resume(m: Machine): (r: Machine)
    ensures m.status.state == Paused ==> r.status.state == Running
    ensures m.status.state != Paused ==> r == m
    ensures r.status.timerType == m.status.timerType
    ensures r.status.remainingSeconds == m.status.remainingSeconds
    ensures r.status.totalSeconds == m.status.totalSeconds
    ensures r.ticker == m.ticker
    ensures Valid(m) ==> Valid(r)
  {
    if m.status.state == Paused then m.(status := m.status.(state := Running)) else m
  }

  /** `stop_timer`: from any state the timer becomes idle; the type and both
      counters keep their values. The loop is not told anything. */
  function Stop(m: Machine): (r: Machine)
    ensures r.status.state == Idle
    ensures r.status.timerType == m.status.timerType
    ensures r.status.remainingSeconds == m.status.remainingSeconds
    ensures r.status.totalSeconds == m.status.totalSeconds
    ensures r.ticker == m.ticker
    ensures Valid(m) ==> Valid(r)
  {
    m.(status := m.status.(state := Idle))
  }

  /** Pausing twice is pausing once. */
  lemma PauseIdempotent(m: Machine)
    ensures Pause(Pause(m)) == Pause(m)
    ensures Pause(m).status.state != Running
  {
  }

  /** Resuming twice is resuming once. */
  lemma ResumeIdempotent(m: Machine)
    ensures Resume(Resume(m)) == Resume(m)
    ensures Resume(m).status.state != Paused
  {
  }

  /** Stopping twice is stopping once, and a stop after a pause or a resume
      is the same as the stop alone. */
  lemma StopAbsorbs(m: Machine)
    ensures Stop(Stop(m)) == Stop(m)
    ensures Stop(Pause(m)) == Stop(m)
    ensures Stop(Resume(m)) == Stop(m)
  {
  }

  /** Pause and resume undo each other on the state they act on. */
  lemma PauseResumeInverse(m: Machine)
    ensures m.status.state == Running ==> Resume(Pause(m)) == m
    ensures m.status.state == Paused ==> Pause(Resume(m)) == m
  {
  }

  /** `resume_timer` with the loop re-armed: resuming a paused timer whose
      loop has already ended spawns a new loop for the current timer type;
      a loop that is still alive is kept rather than doubled. */
  function ResumeRearmed(m: Machine): (r: Machine)
    ensures m.status.state == Paused ==> r.status.state == Running && r.ticker.Alive?
    ensures m.ticker.Alive? ==> r.ticker == m.ticker
    ensures m.status.state != Paused ==> r == m
    ensures r.status.timerType == m.status.timerType
    ensures r.status.remainingSeconds == m.status.remainingSeconds
    ensures r.status.totalSeconds == m.status.totalSeconds
    ensures Valid(m) ==> Valid(r)
  {
    if m.status.state == Paused then
      var ticker := if m.ticker.Dead? then Alive(m.status.timerType) else m.ticker;
      Machine(m.status.(state := Running), ticker)
    else m
  }
}
