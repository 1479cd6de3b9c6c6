/** One iteration of the countdown loop spawned by `start_timer`, taken as
    an atomic step that happens once per elapsed second, and its repetition.
    What the loop emits to the frontend and to the notifier is returned as a
    list of events. */
module Ticker {
  import opened Timer

  const NOTIFICATION_TITLE: string := "Pomodoro Timer"

  /** What the loop emits: a `timer-tick` event with the status, a
      `timer-completed` event with the timer type, and a desktop
      notification request. */
  datatype Event =
    | TickEvt(status: TimerStatus)
    | CompletedEvt(timerType: TimerType)
    | Notify(title: string, body: string)

  /** A machine after some steps, with everything emitted on the way. */
  datatype Trace = Trace(machine: Machine, events: seq<Event>)

  /** The name the completion notification uses for a timer type. */
  function NotificationLabel(t: TimerType): string {
    match t
    case Work => "Work session"
    case ShortBreak => "Short break"
    case LongBreak => "Long break"
  }

  /** The notification shown when a countdown of type `t` completes. */
  function CompletionNotice(t: TimerType): Event {
    Notify(NOTIFICATION_TITLE, NotificationLabel(t) + " completed!")
  }

  /** Every completion notification carries the same title, and its body
      names the type that completed: different types never share one. */
  lemma CompletionNoticeNamesType(t: TimerType, u: TimerType)
    ensures CompletionNotice(t).title == "Pomodoro Timer"
    ensures CompletionNotice(t) == CompletionNotice(u) <==> t == u
  {
    assert |NotificationLabel(Work)| == 12 && |NotificationLabel(ShortBreak)| == 11
      && |NotificationLabel(LongBreak)| == 10;
    if CompletionNotice(t) == CompletionNotice(u) {
      var bt, bu := CompletionNotice(t).body, CompletionNotice(u).body;
      assert |bt| == |NotificationLabel(t)| + 11 && |bu| == |NotificationLabel(u)| + 11;
    }
  }

  /** One second of the loop. A running timer with time left loses one
      second and the new status is emitted; a running timer at zero completes,
      emits the status, the completion and the notification, and the loop
      ends; in any other state the loop ends silently. Without a loop,
      nothing happens. */
  function Tick(m: Machine): (r: Trace)
    ensures r.machine.status.timerType == m.status.timerType
    ensures r.machine.status.totalSeconds == m.status.totalSeconds
    ensures m.ticker.Dead? ==> r == Trace(m, [])
    ensures r.events != [] <==> m.ticker.Alive? && m.status.state == Running
    ensures r.events != [] ==> r.events[0] == TickEvt(r.machine.status)
    ensures r.machine.ticker.Alive? <==>
              m.ticker.Alive? && m.status.state == Running && m.status.remainingSeconds > 0
    ensures r.machine.ticker.Alive? ==> r.machine.ticker == m.ticker
    ensures r.machine.status.state != m.status.state ==>
              m.ticker.Alive? && m.status.state == Running && m.status.remainingSeconds == 0
              && r.machine.status.state == Completed
    ensures r.machine.status.remainingSeconds ==
              if r.machine.ticker.Alive? then m.status.remainingSeconds - 1 else m.status.remainingSeconds
    ensures Valid(m) ==> Valid(r.machine)
  {
    match m.ticker
    case Dead => Trace(m, [])
    case Alive(captured) =>
      var s := m.status;
      if s.state == Running && s.remainingSeconds > 0 then
        var s' := s.(remainingSeconds := s.remainingSeconds - 1);
        Trace(Machine(s', m.ticker), [TickEvt(s')])
      else if s.state == Running then
        var s' := s.(state := Completed);
        Trace(Machine(s', Dead), [TickEvt(s'), CompletedEvt(captured), CompletionNotice(captured)])
      else
        Trace(Machine(s, Dead), [])
  }

  /** `n` consecutive seconds with no command in between. */
  function Ticks(m: Machine, n: nat): (r: Trace)
    ensures Valid(m) ==> Valid(r.machine)
    decreases n
  {
    if n == 0 then Trace(m, [])
    else
      var first := Tick(m);
      var rest := Ticks(first.machine, n - 1);
      Trace(rest.machine, first.events + rest.events)
  }

  /** Kinds of event, for counting. */
  datatype Kind = TickKind | CompletedKind | NotifyKind

  function KindOf(e: Event): Kind {
    match e
    case TickEvt(_) => TickKind
    case CompletedEvt(_) => CompletedKind
    case Notify(_, _) => NotifyKind
  }

  /** How many events of kind `k` a list holds. */
  function Count(events: seq<Event>, k: Kind): nat {
    if events == [] then 0
    else (if KindOf(events[0]) == k then 1 else 0) + Count(events[1..], k)
  }

  lemma {:induction false} CountAppend(a: seq<Event>, b: seq<Event>, k: Kind)
    ensures Count(a + b, k) == Count(a, k) + Count(b, k)
    decreases |a|
  {
    if a == [] {
      assert a + b == b;
    } else {
      assert (a + b)[1..] == a[1..] + b;
      CountAppend(a[1..], b, k);
    }
  }

  /** The status a running countdown shows `k` seconds later. */
  function After(s: TimerStatus, k: nat): TimerStatus
    requires k <= s.remainingSeconds
  {
    s.(remainingSeconds := s.remainingSeconds - k)
  }

  /** `t` with `events` emitted before it. */
  function Prepend(events: seq<Event>, t: Trace): Trace {
    Trace(t.machine, events + t.events)
  }

  /** `t` followed by `n` more seconds. */
  function Then(t: Trace, n: nat): Trace {
    Prepend(t.events, Ticks(t.machine, n))
  }

  lemma PrependThen(e: seq<Event>, t: Trace, n: nat)
    ensures Prepend(e, Then(t, n)) == Then(Prepend(e, t), n)
  {
    assert e + (t.events + Ticks(t.machine, n).events) == (e + t.events) + Ticks(t.machine, n).events;
  }

  /** Running `a` seconds and then `b` more is running `a + b` seconds. */
  lemma {:induction false} TicksSplit(m: Machine, a: nat, b: nat)
    ensures Ticks(m, a + b) == Then(Ticks(m, a), b)
    decreases a
  {
    if a > 0 {
      var first := Tick(m);
      TicksSplit(first.machine, a - 1, b);
      assert Ticks(m, a + b) == Prepend(first.events, Ticks(first.machine, a - 1 + b));
      assert Ticks(m, a) == Prepend(first.events, Ticks(first.machine, a - 1));
      PrependThen(first.events, Ticks(first.machine, a - 1), b);
    }
  }

  /** While time is left, each second takes exactly one second off and
      emits exactly one tick event carrying the new status; the loop lives
      on and nothing completes. */
  lemma {:induction false} CountdownRuns(m: Machine, n: nat)
    requires m.status.state == Running && m.ticker.Alive?
    requires n <= m.status.remainingSeconds
    ensures Ticks(m, n).machine == Machine(After(m.status, n), m.ticker)
    ensures |Ticks(m, n).events| == n
    ensures forall i :: 0 <= i < n ==> Ticks(m, n).events[i] == TickEvt(After(m.status, i + 1))
    ensures Count(Ticks(m, n).events, TickKind) == n
    ensures Count(Ticks(m, n).events, CompletedKind) == 0
    ensures Count(Ticks(m, n).events, NotifyKind) == 0
    decreases n
  {
    if n > 0 {
      var first := Tick(m);
      assert first.machine == Machine(After(m.status, 1), m.ticker);
      assert first.events == [TickEvt(After(m.status, 1))];
      CountdownRuns(first.machine, n - 1);
      var rest := Ticks(first.machine, n - 1);
      assert Ticks(m, n).events == first.events + rest.events;
      forall i | 0 <= i < n
        ensures Ticks(m, n).events[i] == TickEvt(After(m.status, i + 1))
      {
        if i > 0 {
          assert Ticks(m, n).events[i] == rest.events[i - 1];
          assert After(first.machine.status, i) == After(m.status, i + 1);
        }
      }
      CountAppend(first.events, rest.events, TickKind);
      CountAppend(first.events, rest.events, CompletedKind);
      CountAppend(first.events, rest.events, NotifyKind);
    }
  }

  /** The three events of the completing second hold one of each kind. */
  lemma CompletionListCount(s: TimerStatus, t: TimerType)
    ensures Count([TickEvt(s), CompletedEvt(t), CompletionNotice(t)], TickKind) == 1
    ensures Count([TickEvt(s), CompletedEvt(t), CompletionNotice(t)], CompletedKind) == 1
    ensures Count([TickEvt(s), CompletedEvt(t), CompletionNotice(t)], NotifyKind) == 1
  {
    var e2 := [CompletionNotice(t)];
    var e1 := [CompletedEvt(t)] + e2;
    var e0 := [TickEvt(s)] + e1;
    assert e2[1..] == [] && e1[1..] == e2 && e0[1..] == e1;
    forall k: Kind ensures Count(e0, k) == 1 {
      assert Count(e2, k) == (if k == NotifyKind then 1 else 0);
      assert Count(e1, k) == (if k == TickKind then 0 else 1);
    }
    assert e0 == [TickEvt(s), CompletedEvt(t), CompletionNotice(t)];
  }

  /** The second that finds a running countdown at zero emits exactly one
      event of each kind: the tick, the completion and the notification. */
  lemma CompletionEventsCount(m: Machine, k: Kind)
    requires m.status.state == Running && m.ticker.Alive? && m.status.remainingSeconds == 0
    ensures Count(Tick(m).events, k) == 1
  {
    CompletionListCount(m.status.(state := Completed), m.ticker.captured);
  }

  /** The second that finds a running countdown at zero completes it. */
  lemma CompletingTick(m: Machine, n: nat)
    requires m.status.state == Running && m.ticker.Alive? && m.status.remainingSeconds == 0
    requires n > 0
    ensures Ticks(m, n) ==
              Trace(Machine(m.status.(state := Completed), Dead),
                    [TickEvt(m.status.(state := Completed)), CompletedEvt(m.ticker.captured),
                     CompletionNotice(m.ticker.captured)])
  {
    var first := Tick(m);
    NoLoopNoProgress(first.machine, n - 1);
    assert Ticks(m, n).events == first.events + [];
  }

  /** A countdown with `r` seconds left completes on the second after the
      `r`-th: it ends at zero in the Completed state with its loop gone,
      having emitted `r + 1` tick events, then one completion for the type
      and one notification, and nothing after that however long time runs. */
  lemma CountdownCompletes(m: Machine, n: nat)
    requires m.status.state == Running && m.ticker.Alive?
    requires n > m.status.remainingSeconds
    ensures Ticks(m, n).machine ==
              Machine(m.status.(state := Completed, remainingSeconds := 0), Dead)
    ensures |Ticks(m, n).events| == m.status.remainingSeconds + 3
    ensures Count(Ticks(m, n).events, TickKind) == m.status.remainingSeconds + 1
    ensures Count(Ticks(m, n).events, CompletedKind) == 1
    ensures Count(Ticks(m, n).events, NotifyKind) == 1
    ensures Ticks(m, n).events[m.status.remainingSeconds + 1] == CompletedEvt(m.ticker.captured)
    ensures Ticks(m, n).events[m.status.remainingSeconds + 2] == CompletionNotice(m.ticker.captured)
  {
    var r := m.status.remainingSeconds;
    var t := m.ticker.captured;
    var before := Ticks(m, r);
    CountdownRuns(m, r);
    var zero := before.machine;
    CompletingTick(zero, n - r);
    var done := Ticks(zero, n - r);
    TicksSplit(m, r, n - r);
    CompletionListCount(zero.status.(state := Completed), t);
    CountAppend(before.events, done.events, TickKind);
    CountAppend(before.events, done.events, CompletedKind);
    CountAppend(before.events, done.events, NotifyKind);
  }

  /** Once the loop has ended, time passing changes nothing and emits
      nothing: a Running status with no loop stays as it is forever. */
  lemma {:induction false} NoLoopNoProgress(m: Machine, n: nat)
    requires m.ticker.Dead?
    ensures Ticks(m, n) == Trace(m, [])
    decreases n
  {
    if n > 0 {
      NoLoopNoProgress(m, n - 1);
      assert Tick(m) == Trace(m, []);
    }
  }

  /** With the repaired resume a paused countdown with `r` seconds left
      completes, once, after `r + 1` further seconds, even when its loop had
      already ended during the pause. */
  lemma RearmedResumeCompletes(m: Machine)
    requires Valid(m) && m.status.state == Paused
    ensures Ticks(ResumeRearmed(m), m.status.remainingSeconds + 1).machine.status ==
              m.status.(state := Completed, remainingSeconds := 0)
    ensures Count(Ticks(ResumeRearmed(m), m.status.remainingSeconds + 1).events, CompletedKind) == 1
  {
    CountdownCompletes(ResumeRearmed(m), m.status.remainingSeconds + 1);
  }

  /** The resume as written: a paused countdown whose loop ended during the
      pause reports Running after the resume but never counts down again and
      never completes. */
  lemma ResumeAfterLoopEndedStalls(m: Machine, n: nat)
    requires m.status.state == Paused && m.ticker.Dead?
    ensures Resume(m).status.state == Running
    ensures Ticks(Resume(m), n) == Trace(Resume(m), [])
  {
    NoLoopNoProgress(Resume(m), n);
  }
}
