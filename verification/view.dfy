/** What the frontend derives from the status alone: the status it shows
    before the first poll, the heading for the timer type, and which
    controls are enabled or shown in each state. */
module View {
  import opened Timer
  import TimeFormat

  /** The status the frontend shows before its first poll: the one the
      backend starts with. */
  function InitialDisplayStatus(): (r: TimerStatus)
    ensures r == New().status
  {
    TimerStatus(Idle, Work, 25 * 60, 25 * 60)
  }

  /** Before the first poll the clock reads 25:00. */
  lemma InitialClock()
    ensures TimeFormat.FormatTime(InitialDisplayStatus().remainingSeconds) == "25:00"
  {
    TimeFormat.FormatTimeExamples();
  }

  /** A JSX `cond && "text"` child: the text when the condition holds,
      nothing otherwise. */
  function Fragment(cond: bool, text: string): string {
    if cond then text else []
  }

  /** The heading each timer type is meant to have. */
  function TypeLabel(t: TimerType): string {
    match t
    case Work => "Work Session"
    case ShortBreak => "Short Break"
    case LongBreak => "Long Break"
  }

  /** The timer-type heading as rendered: three conditional fragments, one
      per type, side by side. Exactly one of them renders, so the heading is
      the type's own label. */
  function TypeHeading(t: TimerType): (r: string)
    ensures r == TypeLabel(t)
  {
    var r := Fragment(t == Work, "Work Session")
      + Fragment(t == ShortBreak, "Short Break")
      + Fragment(t == LongBreak, "Long Break");
    assert t == Work ==> r == "Work Session" + [] + [];
    assert t == ShortBreak ==> r == [] + "Short Break" + [];
    assert t == LongBreak ==> r == [] + [] + "Long Break";
    r
  }

  /** No two timer types share a heading. */
  lemma TypeHeadingInjective(t: TimerType, u: TimerType)
    ensures TypeHeading(t) == TypeHeading(u) <==> t == u
  {
    assert |TypeLabel(Work)| == 12 && |TypeLabel(ShortBreak)| == 11 && |TypeLabel(LongBreak)| == 10;
  }

  /** The three start buttons are disabled while the timer runs. */
  predicate StartDisabled(s: TimerState) {
    s == Running
  }

  /** The pause button is shown while the timer runs. */
  predicate PauseShown(s: TimerState) {
    s == Running
  }

  /** The resume button is shown while the timer is paused. */
  predicate ResumeShown(s: TimerState) {
    s == Paused
  }

  /** The stop button is shown while the timer runs or is paused. */
  predicate StopShown(s: TimerState) {
    s == Running || s == Paused
  }

  /** The controls agree with each other and with the backend: the start
      buttons are disabled exactly when pause is offered; stop is offered
      exactly when pause or resume is, and never both of those; pause and
      resume are offered exactly when the command would change the status;
      stop is offered only where a countdown is in progress. */
  lemma ControlsAgreeWithCommands(m: Machine)
    ensures StartDisabled(m.status.state) <==> PauseShown(m.status.state)
    ensures StopShown(m.status.state) <==> PauseShown(m.status.state) || ResumeShown(m.status.state)
    ensures !(PauseShown(m.status.state) && ResumeShown(m.status.state))
    ensures PauseShown(m.status.state) <==> Pause(m) != m
    ensures ResumeShown(m.status.state) <==> Resume(m) != m
    ensures StopShown(m.status.state) ==> Stop(m) != m
  {
  }

  /** Whatever control is offered leaves a state in which the matching
      opposite control is offered: pause offers resume, resume offers
      pause, stop re-enables the start buttons and hides everything else. */
  lemma ControlsAfterCommands(m: Machine)
    ensures PauseShown(m.status.state) ==> ResumeShown(Pause(m).status.state)
    ensures ResumeShown(m.status.state) ==> PauseShown(Resume(m).status.state)
    ensures !StartDisabled(Stop(m).status.state) && !StopShown(Stop(m).status.state)
  {
  }
}
