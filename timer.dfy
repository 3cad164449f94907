/**
 * A minimal model of Bevy's repeating `Timer`, in whole milliseconds: it
 * accumulates elapsed time, and a tick that reaches the duration marks it
 * finished and keeps only the remainder. Every timer of the modelled core is
 * created in `TimerMode::Repeating`.
 */
module Timer {

  datatype Timer = Timer(duration: nat, elapsed: nat, finished: bool)
  {
    /** The timer's own invariant: a repeating timer never holds a full period. */
    predicate Valid()
    {
      duration > 0 && elapsed < duration
    }
  }

  /** `Timer::new(duration, TimerMode::Repeating)`. */
  function NewRepeating(duration: nat): (t: Timer)
    ensures t.duration == duration && t.elapsed == 0 && !t.finished
    ensures duration > 0 ==> t.Valid()
    ensures duration > 0 ==> forall d: nat :: d < duration ==> !Tick(t, d).finished
  {
    Timer(duration, 0, false)
  }

  /**
   * `timer.tick(delta)`: it finishes exactly when the accumulated time
   * reaches the duration; the time it drops is a whole number of periods.
   */
  function Tick(t: Timer, delta: nat): (r: Timer)
    ensures r.duration == t.duration
    ensures r.finished <==> t.elapsed + delta >= t.duration
    ensures !r.finished ==> r.elapsed == t.elapsed + delta
    ensures r.finished && t.duration > 0 ==>
              r.elapsed < t.duration &&
              r.elapsed + ((t.elapsed + delta) / t.duration) * t.duration == t.elapsed + delta
    ensures t.Valid() ==> r.Valid()
  {
    var total := t.elapsed + delta;
    if total >= t.duration then
      Timer(t.duration, if t.duration == 0 then 0 else total % t.duration, true)
    else
      Timer(t.duration, total, false)
  }

  /** A tick that does not finish the timer can be split into two ticks. */
  lemma {:induction false} TickSplits(t: Timer, d1: nat, d2: nat)
    requires t.elapsed + d1 + d2 < t.duration
    ensures Tick(Tick(t, d1), d2) == Tick(t, d1 + d2)
  {
  }
}
