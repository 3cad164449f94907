/**
 * The player's animation: the trait's constants as the player sets them,
 * its step-sound frames and its nine-column sprite sheet.
 */
module PlayerAnimation {
  import opened MovementAnimation
  import opened AnimationSystems

  /** One idle frame every 500 ms, eight walking frames every 100 ms. */
  const PlayerConfig := AnimationConfig(1, 500, 8, 100)

  /** `PlayerSoundFrames(vec![5, 9])`. */
  const PlayerSoundFrames: seq<nat> := [5, 9]

  /** The player's texture atlas layout has 9 columns and 1 row. */
  const PlayerAtlasColumns: nat := 9

  /**
   * Every atlas index a valid player animation produces is a cell of the
   * sheet: 0 while idle, 1 to 8 while walking.
   */
  lemma PlayerAtlasIndexInLayout(a: Anim)
    requires Inv(PlayerConfig, a)
    ensures AtlasIndex(a) < PlayerAtlasColumns
    ensures a.state == Idling ==> AtlasIndex(a) == 0
    ensures a.state == Walking ==> 1 <= AtlasIndex(a) <= 8
  {
    AtlasIndexRange(PlayerConfig, a);
  }

  /**
   * Of the two step-sound frames only 5 can ever sound: walking frames run
   * from 0 to 7, so frame 9 is never shown.
   */
  lemma PlayerStepSoundOnlyOnFrame5(a: Anim)
    requires Inv(PlayerConfig, a)
    ensures StepSoundTriggered(a, PlayerSoundFrames) ==> a.frame == 5
    ensures a.frame != 9
  {
  }

  /**
   * Frame 5 does sound: on the fifth frame interval after the player starts
   * walking, and every eighth one after that.
   */
  lemma PlayerStepSoundFires(n: nat)
    requires n % 8 == 5
    ensures StepSoundTriggered(TickedFrames(PlayerConfig, WalkingAnim(PlayerConfig), n), PlayerSoundFrames)
  {
    TickedFramesAdvance(PlayerConfig, WalkingAnim(PlayerConfig), n);
  }
}
