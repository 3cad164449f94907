/**
 * The `MovementAnimation` trait and its implementation, which the player's
 * and the slime's animation components share line for line and differ only
 * in the trait's associated constants (`IDLE_FRAMES`, `IDLE_INTERVAL`,
 * `WALKING_FRAMES`, `WALKING_INTERVAL`). The constants are an
 * `AnimationConfig`; the component is the class `Animation`, whose value
 * `Anim` is specified by the functions of this module.
 */
module MovementAnimation {
  import opened Timer
  import opened Num

  datatype MovementAnimationState = Idling | Walking

  /** The trait's associated constants; intervals are in milliseconds. */
  datatype AnimationConfig = AnimationConfig(
    idleFrames: nat, idleInterval: nat, walkingFrames: nat, walkingInterval: nat)
  {
    /** `update_timer` divides by the frame counts, and a timer needs a period. */
    predicate Valid()
    {
      idleFrames > 0 && walkingFrames > 0 && idleInterval > 0 && walkingInterval > 0
    }
  }

  /** The number of frames of a state. */
  function FrameCount(c: AnimationConfig, s: MovementAnimationState): nat
  {
    match s
    case Idling => c.idleFrames
    case Walking => c.walkingFrames
  }

  /** The duration of each frame of a state. */
  function FrameInterval(c: AnimationConfig, s: MovementAnimationState): nat
  {
    match s
    case Idling => c.idleInterval
    case Walking => c.walkingInterval
  }

  /** The fields of an animation component. */
  datatype Anim = Anim(timer: Timer, frame: nat, state: MovementAnimationState)

  /**
   * The invariant every reachable animation keeps: the frame is one of the
   * state's frames, and the timer runs at the state's interval.
   */
  predicate Inv(c: AnimationConfig, a: Anim)
  {
    && c.Valid()
    && a.frame < FrameCount(c, a.state)
    && a.timer.duration == FrameInterval(c, a.state)
    && a.timer.Valid()
  }

  /** `idling()`: frame 0 of the idle state, with a fresh repeating timer. */
  function IdlingAnim(c: AnimationConfig): (a: Anim)
    requires c.Valid()
    ensures Inv(c, a) && a.state == Idling && a.frame == 0 && !Changed(a)
    ensures a.timer == NewRepeating(c.idleInterval)
  {
    Anim(NewRepeating(c.idleInterval), 0, Idling)
  }

  /** `walking()`: frame 0 of the walking state, with a fresh repeating timer. */
  function WalkingAnim(c: AnimationConfig): (a: Anim)
    requires c.Valid()
    ensures Inv(c, a) && a.state == Walking && a.frame == 0 && !Changed(a)
    ensures a.timer == NewRepeating(c.walkingInterval)
  {
    Anim(NewRepeating(c.walkingInterval), 0, Walking)
  }

  /** The fresh value of a state, which `update_state` installs. */
  function Fresh(c: AnimationConfig, s: MovementAnimationState): (a: Anim)
    requires c.Valid()
    ensures Inv(c, a) && a.state == s && a.frame == 0 && !Changed(a)
    ensures a.timer == NewRepeating(FrameInterval(c, s))
  {
    match s
    case Idling => IdlingAnim(c)
    case Walking => WalkingAnim(c)
  }

  /** `changed()`: whether the timer finished on the last tick. */
  predicate Changed(a: Anim)
  {
    a.timer.finished
  }

  /**
   * `update_timer(delta)`: the frame advances, cyclically through the
   * state's frames, exactly on the ticks that finish the timer.
   */
  function Ticked(c: AnimationConfig, a: Anim, delta: nat): (r: Anim)
    requires Inv(c, a)
    ensures Inv(c, r) && r.state == a.state && r.timer == Tick(a.timer, delta)
    ensures Changed(r) <==> a.timer.elapsed + delta >= FrameInterval(c, a.state)
    ensures !Changed(r) ==> r.frame == a.frame
    ensures Changed(r) ==> r.frame == (a.frame + 1) % FrameCount(c, a.state)
  {
    var t := Tick(a.timer, delta);
    if !t.finished then Anim(t, a.frame, a.state)
    else Anim(t, (a.frame + 1) % FrameCount(c, a.state), a.state)
  }

  /**
   * `update_state(s)`: nothing changes when `s` is the current state;
   * otherwise the whole value is replaced by the fresh value of `s`.
   */
  function WithState(c: AnimationConfig, a: Anim, s: MovementAnimationState): (r: Anim)
    requires Inv(c, a)
    ensures Inv(c, r) && r.state == s
    ensures s == a.state ==> r == a
    ensures s != a.state ==> r == Fresh(c, s) && r.frame == 0 && !Changed(r)
  {
    if a.state != s then Fresh(c, s) else a
  }

  /** `get_atlas_index()`: idle frames first, then walking frames after one slot. */
  function AtlasIndex(a: Anim): nat
  {
    match a.state
    case Idling => a.frame
    case Walking => 1 + a.frame
  }

  /** Where the atlas index of a valid animation can fall. */
  lemma AtlasIndexRange(c: AnimationConfig, a: Anim)
    requires Inv(c, a)
    ensures a.state == Idling ==> AtlasIndex(a) < c.idleFrames
    ensures a.state == Walking ==> 1 <= AtlasIndex(a) < 1 + c.walkingFrames
  {
  }

  /** Requesting the same state twice is the same as requesting it once. */
  lemma WithStateIdempotent(c: AnimationConfig, a: Anim, s: MovementAnimationState)
    requires Inv(c, a)
    ensures WithState(c, WithState(c, a, s), s) == WithState(c, a, s)
  {
  }

  /** `n` ticks of exactly one frame interval each. */
  function TickedFrames(c: AnimationConfig, a: Anim, n: nat): (r: Anim)
    requires Inv(c, a)
    ensures Inv(c, r) && r.state == a.state
    decreases n
  {
    if n == 0 then a
    else Ticked(c, TickedFrames(c, a, n - 1), FrameInterval(c, a.state))
  }

  /**
   * Starting on a period boundary, each tick of one frame interval shows the
   * next frame: after `n` of them the frame has advanced by `n`, cyclically.
   */
  lemma {:induction false} TickedFramesAdvance(c: AnimationConfig, a: Anim, n: nat)
    requires Inv(c, a) && a.timer.elapsed == 0
    ensures TickedFrames(c, a, n).frame == (a.frame + n) % FrameCount(c, a.state)
    ensures TickedFrames(c, a, n).timer.elapsed == 0
    ensures n > 0 ==> Changed(TickedFrames(c, a, n))
  {
    if n > 0 {
      var prev := TickedFrames(c, a, n - 1);
      TickedFramesAdvance(c, a, n - 1);
      TickOneInterval(c, prev);
      ModSucc(a.frame + n - 1, FrameCount(c, a.state));
    }
  }

  /** From a period boundary, one tick of a whole frame interval ends on the next boundary. */
  lemma TickOneInterval(c: AnimationConfig, b: Anim)
    requires Inv(c, b) && b.timer.elapsed == 0
    ensures var r := Ticked(c, b, FrameInterval(c, b.state));
            && r.timer.elapsed == 0 && Changed(r)
            && r.frame == (b.frame + 1) % FrameCount(c, b.state)
  {
    var d := b.timer.duration;
    DivModUnique(d, d, 1, 0);
  }

  lemma ModSucc(m: nat, k: nat)
    requires k > 0
    ensures (m % k + 1) % k == (m + 1) % k
  {
    var q, r := m / k, m % k;
    assert m == q * k + r;
    if r + 1 < k {
      DivModUnique(m + 1, k, q, r + 1);
      DivModUnique(r + 1, k, 0, r + 1);
    } else {
      assert (q + 1) * k == q * k + k;
      DivModUnique(m + 1, k, q + 1, 0);
      DivModUnique(k, k, 1, 0);
    }
  }

  /**
   * With a single idle frame the atlas index identifies the animation's
   * picture: two valid animations with the same index show the same frame
   * of the same state.
   */
  lemma AtlasIndexIdentifies(c: AnimationConfig, a: Anim, b: Anim)
    requires Inv(c, a) && Inv(c, b) && c.idleFrames == 1
    ensures AtlasIndex(a) == AtlasIndex(b) <==> a.state == b.state && a.frame == b.frame
  {
  }

  /**
   * `changed()` after a tick means the picture moved on: in a state with
   * more than one frame the frame differs exactly when the timer finished,
   * and a single-frame state never leaves its frame.
   */
  lemma ChangedIffFrameMoves(c: AnimationConfig, a: Anim, delta: nat)
    requires Inv(c, a)
    ensures FrameCount(c, a.state) > 1 ==>
              (Changed(Ticked(c, a, delta)) <==> Ticked(c, a, delta).frame != a.frame)
    ensures FrameCount(c, a.state) == 1 ==> Ticked(c, a, delta).frame == 0
  {
  }

  /** One call on the component: a timer tick or a state request. */
  datatype Step = TickBy(delta: nat) | Request(state: MovementAnimationState)

  /**
   * The value after a sequence of `update_timer` and `update_state` calls.
   * Every value reached this way keeps the invariant.
   */
  function Run(c: AnimationConfig, a: Anim, steps: seq<Step>): (r: Anim)
    requires Inv(c, a)
    ensures Inv(c, r)
    ensures |steps| > 0 && steps[|steps| - 1].Request? ==> r.state == steps[|steps| - 1].state
    decreases |steps|
  {
    if |steps| == 0 then a
    else
      var prev := Run(c, a, steps[..|steps| - 1]);
      match steps[|steps| - 1]
      case TickBy(delta) => Ticked(c, prev, delta)
      case Request(s) => WithState(c, prev, s)
  }

  /**
   * The animation component (`PlayerAnimation`, `SlimeAnimation`): its
   * fields change in place through `update_timer` and `update_state`.
   */
  class Animation {
    const config: AnimationConfig
    var timer: Timer
    var frame: nat
    var state: MovementAnimationState

    function Value(): Anim
      reads this
    {
      Anim(timer, frame, state)
    }

    ghost predicate Valid()
      reads this
    {
      Inv(config, Value())
    }

    /** `idling()`. */
    constructor Idling(c: AnimationConfig)
      requires c.Valid()
      ensures Valid() && config == c && Value() == IdlingAnim(c)
    {
      config := c;
      timer := NewRepeating(c.idleInterval);
      frame := 0;
      state := MovementAnimationState.Idling;
    }

    /** `walking()`. */
    constructor Walking(c: AnimationConfig)
      requires c.Valid()
      ensures Valid() && config == c && Value() == WalkingAnim(c)
    {
      config := c;
      timer := NewRepeating(c.walkingInterval);
      frame := 0;
      state := MovementAnimationState.Walking;
    }

    /** `new()`, which is `idling()`. */
    constructor New(c: AnimationConfig)
      requires c.Valid()
      ensures Valid() && config == c && Value() == IdlingAnim(c)
    {
      config := c;
      timer := NewRepeating(c.idleInterval);
      frame := 0;
      state := MovementAnimationState.Idling;
    }

    /** `update_timer(delta)`. */
    method UpdateTimer(delta: nat)
      requires Valid()
      modifies this
      ensures Valid() && Value() == Ticked(config, old(Value()), delta)
    {
      timer := Tick(timer, delta);
      if !timer.finished {
        return;
      }
      frame := (frame + 1) % FrameCount(config, state);
    }

    /** `update_state(s)`: `*self = Self::idling()` or `Self::walking()` on a change. */
    method UpdateState(s: MovementAnimationState)
      requires Valid()
      modifies this
      ensures Valid() && Value() == WithState(config, old(Value()), s)
    {
      if state != s {
        var reset := Fresh(config, s);
        timer, frame, state := reset.timer, reset.frame, reset.state;
      }
    }
  }
}
