/** The reaction timer of `games/ReflexTest.tsx`: a start arms a timeout
    of 2 to 5 seconds; when it fires the panel turns ready, and the next
    trigger records the elapsed milliseconds. A trigger while still
    waiting cancels the timeout and ends in `early`. */
module ReflexTest {
  import opened Wrappers

  datatype GameState = Idle | Waiting | Ready | Result | Early

  const MIN_DELAY: real := 2000.0
  const MAX_DELAY: real := 5000.0

  /** The component's state: `gameState`, `startTime`, `reactionTime`,
      and the armed timeout as its deadline (`None` once it fired or was
      cleared). */
  datatype Snapshot = Snapshot(gameState: GameState, startTime: int,
                               reactionTime: Option<int>, timer: Option<real>)

  const INITIAL: Snapshot := Snapshot(Idle, 0, None, None)

  predicate ValidDelay(delay: real)
  {
    MIN_DELAY <= delay < MAX_DELAY
  }

  /** A timeout is armed exactly while waiting, and a reaction time is
      recorded exactly in the result state. */
  predicate Inv(s: Snapshot)
  {
    && (s.timer.Some? <==> s.gameState == Waiting)
    && (s.reactionTime.Some? <==> s.gameState == Result)
  }

  /** `startTest` at time `now` with the drawn `delay`. */
  function Started(s: Snapshot, now: int, delay: real): Snapshot
    requires ValidDelay(delay)
  {
    Snapshot(Waiting, s.startTime, None, Some(now as real + delay))
  }

  /** The timeout callback, run at time `now`. */
  function Fired(s: Snapshot, now: int): Snapshot
  {
    Snapshot(Ready, now, s.reactionTime, None)
  }

  /** `handleTrigger` at time `now`; `delay` is used only when it starts
      a new test. */
  function Triggered(s: Snapshot, now: int, delay: real): Snapshot
    requires ValidDelay(delay)
  {
    match s.gameState
    case Waiting => s.(gameState := Early, timer := None)
    case Ready => s.(gameState := Result, reactionTime := Some(now - s.startTime))
    case _ => Started(s, now, delay)
  }

  /** The unmount cleanup clears any armed timeout. */
  function Unmounted(s: Snapshot): Snapshot
  {
    s.(timer := None)
  }

  /** The initial state, every start, firing and trigger keep `Inv`. */
  lemma TransitionsKeepInv(s: Snapshot, now: int, delay: real)
    requires ValidDelay(delay)
    ensures Inv(INITIAL)
    ensures Inv(Started(s, now, delay))
    ensures Inv(s) && s.gameState == Waiting ==> Inv(Fired(s, now))
    ensures Inv(s) ==> Inv(Triggered(s, now, delay))
  {
  }

  /** A start arms a timeout due between 2 and 5 seconds later and clears
      any previous reaction time. */
  lemma StartArmsTimer(s: Snapshot, now: int, delay: real)
    requires ValidDelay(delay)
    ensures var t := Started(s, now, delay);
            t.gameState == Waiting && t.reactionTime == None && t.timer.Some? &&
            now as real + MIN_DELAY <= t.timer.value < now as real + MAX_DELAY
  {
  }

  /** A trigger in `idle`, `result` or `early` is exactly a start. */
  lemma TriggerRestarts(s: Snapshot, now: int, delay: real)
    requires ValidDelay(delay)
    requires s.gameState in {Idle, Result, Early}
    ensures Triggered(s, now, delay) == Started(s, now, delay)
  {
  }

  /** A trigger while waiting clears the timeout, records nothing and
      ends in `early`; a trigger when ready records the elapsed time. */
  lemma TriggerOutcomes(s: Snapshot, now: int, delay: real)
    requires ValidDelay(delay) && Inv(s)
    ensures s.gameState == Waiting ==>
      Triggered(s, now, delay) == Snapshot(Early, s.startTime, None, None)
    ensures s.gameState == Ready ==>
      Triggered(s, now, delay) == Snapshot(Result, s.startTime, Some(now - s.startTime), None)
  {
  }

  /** Starting and triggering before the timeout fires ends in `early`
      with no reaction time, never in `result`. */
  lemma EarlyTriggerNeverScores(s: Snapshot, t0: int, d0: real, t1: int, d1: real)
    requires ValidDelay(d0) && ValidDelay(d1)
    ensures var e := Triggered(Started(s, t0, d0), t1, d1);
            e.gameState == Early && e.reactionTime == None && e.timer == None
  {
  }

  /** A full round: start at `t0`, the timeout fires at `t1` (not before
      its deadline), trigger at `t2`. The recorded time is `t2 - t1`, and
      the ready signal came at least 2 seconds after the start. */
  lemma FullRound(s: Snapshot, t0: int, d0: real, t1: int, t2: int, d2: real)
    requires ValidDelay(d0) && ValidDelay(d2)
    requires t1 as real >= Started(s, t0, d0).timer.value
    ensures var r := Triggered(Fired(Started(s, t0, d0), t1), t2, d2);
            r.gameState == Result && r.reactionTime == Some(t2 - t1) && r.timer == None
    ensures t1 >= t0 + 2000
  {
  }

  /** After unmounting no timeout is armed, whatever the state. */
  lemma UnmountDisarms(s: Snapshot)
    ensures Unmounted(s).timer == None
    ensures Unmounted(s).gameState == s.gameState && Unmounted(s).reactionTime == s.reactionTime
  {
  }

  /** The verdict shown under a result. */
  datatype Verdict = PeakPerformance | WithinLimits | LatencyDetected

  function VerdictOf(ms: int): (v: Verdict)
    ensures v == PeakPerformance <==> ms < 200
    ensures v == WithinLimits <==> 200 <= ms < 300
    ensures v == LatencyDetected <==> 300 <= ms
  {
    if ms < 200 then PeakPerformance else if ms < 300 then WithinLimits else LatencyDetected
  }

  class Reflex {
    var gameState: GameState
    var startTime: int
    var reactionTime: Option<int>
    var timer: Option<real>

    function Current(): Snapshot
      reads this
    {
      Snapshot(gameState, startTime, reactionTime, timer)
    }

    ghost predicate Valid()
      reads this
    {
      Inv(Current())
    }

    constructor ()
      ensures Current() == INITIAL && Valid()
    {
      gameState := Idle;
      startTime := 0;
      reactionTime := None;
      timer := None;
    }

    /** `startTest`, also bound to the re-initialize button. */
    method StartTest(now: int, delay: real)
      requires ValidDelay(delay)
      modifies this
      ensures Current() == Started(old(Current()), now, delay) && Valid()
    {
      gameState := Waiting;
      reactionTime := None;
      timer := Some(now as real + delay);
    }

    /** The armed timeout fires at `now`, not before its deadline. */
    method TimerFires(now: int)
      requires timer.Some? && now as real >= timer.value
      modifies this
      ensures Current() == Fired(old(Current()), now)
      ensures old(Valid()) ==> Valid()
    {
      gameState := Ready;
      startTime := now;
      timer := None;
    }

    method HandleTrigger(now: int, delay: real)
      requires ValidDelay(delay)
      modifies this
      ensures Current() == Triggered(old(Current()), now, delay)
      ensures old(Valid()) ==> Valid()
    {
      if gameState == Waiting {
        timer := None;
        gameState := Early;
      } else if gameState == Ready {
        reactionTime := Some(now - startTime);
        gameState := Result;
      } else {
        StartTest(now, delay);
      }
    }

    method Unmount()
      modifies this
      ensures Current() == Unmounted(old(Current()))
    {
      timer := None;
    }
  }
}
