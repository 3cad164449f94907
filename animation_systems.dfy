/**
 * The generic animation systems, run each frame over every entity that has
 * an animation component: advance the timers, pick the state and the sprite
 * direction from the movement intent, copy the frame into the texture
 * atlas, and play a step sound on chosen walking frames.
 *
 * A query is a sequence of the matched entities' components; components are
 * objects, and the ECS never hands the same component to two entries.
 */
module AnimationSystems {
  import opened Num
  import opened MovementAnimation

  /** The parts of Bevy's `Sprite` these systems touch. */
  class Sprite {
    var flipX: bool
    /** The texture atlas's index, or `None` when the sprite has no atlas. */
    var atlas: Option<nat>
  }

  ghost predicate AllValid(anims: seq<Animation>)
    reads anims
  {
    forall i :: 0 <= i < |anims| ==> anims[i].Valid()
  }

  /** `update_animation_timer`: every animation is ticked by the same `delta`. */
  method UpdateAnimationTimer(query: seq<Animation>, delta: nat)
    requires AllValid(query) && Distinct(query)
    modifies query
    ensures AllValid(query)
    ensures forall i :: 0 <= i < |query| ==>
              query[i].Value() == Ticked(query[i].config, old(query[i].Value()), delta)
  {
    for i := 0 to |query|
      invariant AllValid(query)
      invariant forall k :: 0 <= k < i ==>
                  query[k].Value() == Ticked(query[k].config, old(query[k].Value()), delta)
      invariant forall k :: i <= k < |query| ==> query[k].Value() == old(query[k].Value())
    {
      query[i].UpdateTimer(delta);
    }
  }

  /** One entity of `update_animation_movement`'s query. */
  datatype MovementItem = MovementItem(
    translation: Option<Vec2>,  // `KinematicCharacterController::translation`
    sprite: Sprite,
    animation: Animation)

  /** The state a movement intent asks for: idle exactly when it is zero. */
  function RequestedState(intent: Vec2): (s: MovementAnimationState)
    ensures s == Idling <==> intent == Vec2(0.0, 0.0)
  {
    if intent == Vec2(0.0, 0.0) then Idling else Walking
  }

  /** The sprite faces left exactly when moving left; a vertical or zero intent keeps it. */
  function FlipAfter(flipX: bool, intent: Vec2): (r: bool)
    ensures intent.x < 0.0 ==> r
    ensures intent.x > 0.0 ==> !r
    ensures intent.x == 0.0 ==> r == flipX
  {
    if intent.x != 0.0 then intent.x < 0.0 else flipX
  }

  /**
   * The number of entities `update_animation_movement` handles: the system
   * returns at the first entity without a translation, so that entity and
   * all after it are skipped.
   */
  function ProcessedCount(items: seq<MovementItem>): (n: nat)
    ensures n <= |items|
    ensures forall k :: 0 <= k < n ==> items[k].translation.Some?
    ensures n < |items| ==> items[n].translation.None?
  {
    if |items| == 0 || items[0].translation.None? then 0
    else 1 + ProcessedCount(items[1..])
  }

  ghost predicate ValidItems(items: seq<MovementItem>)
    reads set i | 0 <= i < |items| :: items[i].animation
  {
    forall i :: 0 <= i < |items| ==> items[i].animation.Valid()
  }

  /** `update_animation_movement`. */
  method UpdateAnimationMovement(items: seq<MovementItem>)
    requires ValidItems(items)
    requires forall i, j :: 0 <= i < |items| && 0 <= j < |items| && i != j ==>
               items[i].animation != items[j].animation && items[i].sprite != items[j].sprite
    modifies set i | 0 <= i < |items| :: items[i].animation
    modifies set i | 0 <= i < |items| :: items[i].sprite
    ensures ValidItems(items)
    ensures forall i :: 0 <= i < ProcessedCount(items) ==>
              && items[i].sprite.flipX == FlipAfter(old(items[i].sprite.flipX), items[i].translation.value)
              && items[i].animation.Value() ==
                 WithState(items[i].animation.config, old(items[i].animation.Value()),
                           RequestedState(items[i].translation.value))
    ensures forall i :: ProcessedCount(items) <= i < |items| ==>
              && items[i].sprite.flipX == old(items[i].sprite.flipX)
              && items[i].animation.Value() == old(items[i].animation.Value())
    ensures forall i :: 0 <= i < |items| ==> items[i].sprite.atlas == old(items[i].sprite.atlas)
  {
    var i := 0;
    while i < |items|
      invariant i <= |items|
      invariant forall k :: 0 <= k < i ==> items[k].translation.Some?
      invariant forall k :: 0 <= k < |items| ==>
                  && items[k].animation.Valid()
                  && items[k].sprite.atlas == old(items[k].sprite.atlas)
                  && items[k].sprite.flipX ==
                     (if k < i then FlipAfter(old(items[k].sprite.flipX), items[k].translation.value)
                      else old(items[k].sprite.flipX))
                  && items[k].animation.Value() ==
                     (if k < i then WithState(items[k].animation.config, old(items[k].animation.Value()),
                                              RequestedState(items[k].translation.value))
                      else old(items[k].animation.Value()))
    {
      var item := items[i];
      if item.translation.None? {
        return;
      }
      ApplyIntent(item.sprite, item.animation, item.translation.value);
      i := i + 1;
    }
  }

  /** The body of `update_animation_movement`'s loop for an entity with an intent. */
  method ApplyIntent(sprite: Sprite, animation: Animation, intent: Vec2)
    requires animation.Valid()
    modifies sprite, animation
    ensures animation.Valid()
    ensures sprite.flipX == FlipAfter(old(sprite.flipX), intent) && sprite.atlas == old(sprite.atlas)
    ensures animation.Value() == WithState(animation.config, old(animation.Value()), RequestedState(intent))
  {
    if intent.x != 0.0 {
      sprite.flipX := intent.x < 0.0;
    }
    var state := if intent == Vec2(0.0, 0.0) then Idling else Walking;
    animation.UpdateState(state);
  }

  /** One entity of `update_animation_atlas`'s query. */
  datatype AtlasItem = AtlasItem(animation: Animation, sprite: Sprite)

  /**
   * `update_animation_atlas`: a sprite without an atlas is skipped; otherwise
   * its index becomes the animation's atlas index exactly when the animation
   * changed on this tick.
   */
  method UpdateAnimationAtlas(items: seq<AtlasItem>)
    requires forall i, j :: 0 <= i < j < |items| ==> items[i].sprite != items[j].sprite
    modifies set i | 0 <= i < |items| :: items[i].sprite
    ensures forall i :: 0 <= i < |items| ==> items[i].sprite.flipX == old(items[i].sprite.flipX)
    ensures forall i :: 0 <= i < |items| && old(items[i].sprite.atlas).None? ==>
              items[i].sprite.atlas.None?
    ensures forall i :: 0 <= i < |items| && old(items[i].sprite.atlas).Some? ==>
              items[i].sprite.atlas ==
                if Changed(items[i].animation.Value())
                then Some(AtlasIndex(items[i].animation.Value()))
                else old(items[i].sprite.atlas)
  {
    for i := 0 to |items|
      invariant forall k :: 0 <= k < |items| ==> items[k].sprite.flipX == old(items[k].sprite.flipX)
      invariant forall k :: 0 <= k < i && old(items[k].sprite.atlas).None? ==>
                  items[k].sprite.atlas.None?
      invariant forall k :: 0 <= k < i && old(items[k].sprite.atlas).Some? ==>
                  items[k].sprite.atlas ==
                    if Changed(items[k].animation.Value())
                    then Some(AtlasIndex(items[k].animation.Value()))
                    else old(items[k].sprite.atlas)
      invariant forall k :: i <= k < |items| ==> items[k].sprite.atlas == old(items[k].sprite.atlas)
    {
      var item := items[i];
      if item.sprite.atlas.None? {
        continue;
      }
      if Changed(item.animation.Value()) {
        item.sprite.atlas := Some(AtlasIndex(item.animation.Value()));
      }
    }
  }

  /** The condition under which `trigger_step_sound_effect` plays a step sound. */
  predicate StepSoundTriggered(a: Anim, soundFrames: seq<nat>)
  {
    a.state == Walking && Changed(a) && a.frame in soundFrames
  }

  /**
   * After a tick, a step sound is due exactly when the animation walks, the
   * tick finishes the walking frame's interval, and the next walking frame
   * is a sound frame. Idling never sounds.
   */
  lemma StepSoundOnTick(c: AnimationConfig, a: Anim, delta: nat, soundFrames: seq<nat>)
    requires Inv(c, a)
    ensures StepSoundTriggered(Ticked(c, a, delta), soundFrames) <==>
              && a.state == Walking
              && a.timer.elapsed + delta >= c.walkingInterval
              && (a.frame + 1) % c.walkingFrames in soundFrames
  {
  }

  /** A state change resets the timer, so it never triggers a step sound. */
  lemma NoStepSoundOnStateChange(c: AnimationConfig, a: Anim, s: MovementAnimationState, soundFrames: seq<nat>)
    requires Inv(c, a) && s != a.state
    ensures !StepSoundTriggered(WithState(c, a, s), soundFrames)
  {
  }

  /** `choose` on an empty list of step sounds yields `None`, which the system unwraps. */
  datatype SoundError = NoStepSounds

  /**
   * `trigger_step_sound_effect`: the entities, in query order, for which a
   * step sound is spawned. Which of the `stepSoundCount` sounds is picked is
   * random and not modelled; with no sounds at all the first trigger panics.
   */
  method TriggerStepSoundEffect(query: seq<Animation>, soundFrames: seq<nat>, stepSoundCount: nat)
    returns (r: Result<seq<nat>, SoundError>)
    ensures r.Err? <==>
              stepSoundCount == 0 &&
              exists i :: 0 <= i < |query| && StepSoundTriggered(query[i].Value(), soundFrames)
    ensures r.Ok? ==> forall j :: 0 <= j < |r.value| ==>
              r.value[j] < |query| && StepSoundTriggered(query[r.value[j]].Value(), soundFrames)
    ensures r.Ok? ==> forall i :: 0 <= i < |query| && StepSoundTriggered(query[i].Value(), soundFrames) ==>
              i in r.value
    ensures r.Ok? ==> forall j, k :: 0 <= j < k < |r.value| ==> r.value[j] < r.value[k]
  {
    var spawned: seq<nat> := [];
    for i := 0 to |query|
      invariant forall j :: 0 <= j < |spawned| ==>
                  spawned[j] < i && StepSoundTriggered(query[spawned[j]].Value(), soundFrames)
      invariant forall k :: 0 <= k < i && StepSoundTriggered(query[k].Value(), soundFrames) ==>
                  k in spawned
      invariant forall j, k :: 0 <= j < k < |spawned| ==> spawned[j] < spawned[k]
      invariant stepSoundCount == 0 ==> spawned == []
    {
      if StepSoundTriggered(query[i].Value(), soundFrames) {
        if stepSoundCount == 0 {
          return Err(NoStepSounds);
        }
        spawned := spawned + [i];
      }
    }
    return Ok(spawned);
  }
}
