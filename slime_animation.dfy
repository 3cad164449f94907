/**
 * The slime's animation: the trait's constants as the slime sets them, its
 * step-sound frames and its three-column sprite sheet.
 */
module SlimeAnimation {
  import opened MovementAnimation
  import opened AnimationSystems

  /** One idle frame every 500 ms, three walking frames every 100 ms. */
  const SlimeConfig := AnimationConfig(1, 500, 3, 100)

  /** `SlimeSoundFrames(vec![3])`. */
  const SlimeSoundFrames: seq<nat> := [3]

  /** The slime's texture atlas layout has 3 columns and 1 row. */
  const SlimeAtlasColumns: nat := 3

  /** A valid slime animation shows atlas index 0 while idle and 1, 2 or 3 while walking. */
  lemma SlimeAtlasIndexRange(a: Anim)
    requires Inv(SlimeConfig, a)
    ensures a.state == Idling ==> AtlasIndex(a) == 0
    ensures a.state == Walking ==> AtlasIndex(a) in {1, 2, 3}
  {
    AtlasIndexRange(SlimeConfig, a);
  }

  /**
   * Index 3 is reached: two frame intervals after the slime starts walking,
   * and every third one after that, its atlas index is 3, one past the last
   * column of its sheet.
   */
  lemma SlimeAtlasIndexLeavesLayout(n: nat)
    requires n % 3 == 2
    ensures AtlasIndex(TickedFrames(SlimeConfig, WalkingAnim(SlimeConfig), n)) == 3
    ensures AtlasIndex(TickedFrames(SlimeConfig, WalkingAnim(SlimeConfig), n)) >= SlimeAtlasColumns
  {
    TickedFramesAdvance(SlimeConfig, WalkingAnim(SlimeConfig), n);
  }

  /**
   * The slime never plays a step sound: its only sound frame is 3, and its
   * walking frames run from 0 to 2.
   */
  lemma SlimeStepSoundNeverFires(a: Anim)
    requires Inv(SlimeConfig, a)
    ensures !StepSoundTriggered(a, SlimeSoundFrames)
  {
  }
}
