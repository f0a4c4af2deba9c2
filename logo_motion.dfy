/**
 * The motion settings of the logo carousel (src/components/ui/LogoLoop.tsx):
 * the signed velocity the track aims for, the speed used while hovered, the
 * per-frame choice between the two, and one step of velocity smoothing.
 */
module LogoLoopMotion {
  import opened Optional

  /** The `direction` prop. */
  datatype Direction = Left | Right | Up | Down

  /** The default of the `speed` prop, in pixels per second. */
  const DEFAULT_SPEED: real := 120.0
  /** The default of the `direction` prop. */
  const DEFAULT_DIRECTION: Direction := Left

  function Abs(x: real): (a: real)
    ensures 0.0 <= a && (a == x || a == -x)
  {
    if x < 0.0 then -x else x
  }

  /** `isVertical` (line 246). */
  predicate IsVertical(d: Direction) { d == Up || d == Down }

  /**
   * The `targetVelocity` memo (lines 248-259): the speed's magnitude times a
   * direction sign (+1 for left and up) times the speed's own sign. A
   * positive velocity moves the offset forward, so the logos travel left or up.
   */
  function TargetVelocity(speed: real, direction: Direction): (v: real)
    ensures Abs(v) == Abs(speed)
    ensures direction == Left || direction == Up ==> v == speed
    ensures direction == Right || direction == Down ==> v == -speed
  {
    var magnitude := Abs(speed);
    var directionMultiplier :=
      if IsVertical(direction) then (if direction == Up then 1.0 else -1.0)
      else (if direction == Left then 1.0 else -1.0);
    var speedMultiplier := if speed < 0.0 then -1.0 else 1.0;
    magnitude * directionMultiplier * speedMultiplier
  }

  /** With the default props the logos travel left at 120 pixels per second. */
  lemma DefaultTargetVelocity()
    ensures TargetVelocity(DEFAULT_SPEED, DEFAULT_DIRECTION) == 120.0
    ensures TargetVelocity(DEFAULT_SPEED, Right) == -120.0
  {}

  /** A negative speed runs the carousel the other way. */
  lemma NegativeSpeedReverses(speed: real, direction: Direction)
    ensures TargetVelocity(-speed, direction) == -TargetVelocity(speed, direction)
  {}

  /** Opposite directions on one axis give opposite velocities. */
  lemma OppositeDirections(speed: real)
    ensures TargetVelocity(speed, Right) == -TargetVelocity(speed, Left)
    ensures TargetVelocity(speed, Down) == -TargetVelocity(speed, Up)
  {}

  /**
   * The `effectiveHoverSpeed` memo (lines 239-244): an explicit `hoverSpeed`
   * wins; otherwise hovering pauses the track unless `pauseOnHover` is
   * explicitly false, in which case hovering has no speed of its own.
   */
  function EffectiveHoverSpeed(hoverSpeed: Option<real>, pauseOnHover: Option<bool>): (r: Option<real>)
    ensures hoverSpeed.Some? ==> r == hoverSpeed
    ensures hoverSpeed.None? ==> (r.None? <==> pauseOnHover == Some(false))
    ensures hoverSpeed.None? && r.Some? ==> r.value == 0.0
  {
    if hoverSpeed.Some? then hoverSpeed
    else if pauseOnHover == Some(true) then Some(0.0)
    else if pauseOnHover == Some(false) then None
    else Some(0.0)
  }

  /** The velocity a frame steers towards (lines 177-178). */
  function FrameTarget(isHovered: bool, hoverSpeed: Option<real>, targetVelocity: real): (t: real)
    ensures isHovered && hoverSpeed.Some? ==> t == hoverSpeed.value
    ensures !isHovered || hoverSpeed.None? ==> t == targetVelocity
  {
    if isHovered && hoverSpeed.Some? then hoverSpeed.value else targetVelocity
  }

  /** With the default hover settings, hovering brings the track to a stop. */
  lemma DefaultHoverPauses(targetVelocity: real)
    ensures FrameTarget(true, EffectiveHoverSpeed(None, None), targetVelocity) == 0.0
  {}

  /** With pauseOnHover false and no hoverSpeed, hovering never changes the target. */
  lemma HoverIgnoredWhenNotPausing(isHovered: bool, speed: real, direction: Direction)
    ensures FrameTarget(isHovered, EffectiveHoverSpeed(None, Some(false)), TargetVelocity(speed, direction))
         == TargetVelocity(speed, direction)
  {}

  /**
   * Seconds elapsed since the previous frame (lines 169-175): zero on the
   * first frame after (re)starting and when the clock appears to run
   * backwards, the difference in milliseconds over 1000 otherwise.
   */
  function FrameDelta(lastTimestamp: Option<real>, timestamp: real): (dt: real)
    ensures 0.0 <= dt
    ensures lastTimestamp.None? ==> dt == 0.0
    ensures lastTimestamp.Some? && lastTimestamp.value <= timestamp ==>
      dt * 1000.0 == timestamp - lastTimestamp.value
    ensures lastTimestamp.Some? && timestamp < lastTimestamp.value ==> dt == 0.0
  {
    var last := if lastTimestamp.Some? then lastTimestamp.value else timestamp;
    (if timestamp - last < 0.0 then 0.0 else timestamp - last) / 1000.0
  }

  /**
   * One smoothing step (line 182) with easing factor e in [0, 1): the gap
   * to the target shrinks by the factor 1 - e, so the velocity moves
   * towards the target, without reaching or passing it.
   */
  function Ease(velocity: real, target: real, easing: real): (v: real)
    requires 0.0 <= easing < 1.0
    ensures velocity <= target ==> velocity <= v <= target
    ensures target <= velocity ==> target <= v <= velocity
    ensures velocity != target ==> v != target
    ensures easing == 0.0 ==> v == velocity
    ensures 0.0 < easing && velocity != target ==> v != velocity
    ensures target - v == (1.0 - easing) * (target - velocity)
  {
    EaseBetween(velocity, target, easing);
    velocity + (target - velocity) * easing
  }

  lemma EaseBetween(velocity: real, target: real, easing: real)
    requires 0.0 <= easing < 1.0
    ensures var step := (target - velocity) * easing;
      && (velocity <= target ==> 0.0 <= step <= target - velocity)
      && (target <= velocity ==> target - velocity <= step <= 0.0)
      && (velocity != target ==> step != target - velocity)
  {
    var gap := target - velocity;
    var step := gap * easing;
    var rest := gap * (1.0 - easing);
    assert rest == gap - step;
    if velocity < target {
      ProductSigns(gap, easing, rest);
    } else if target < velocity {
      ProductSigns(-gap, easing, -rest);
    }
  }

  lemma ProductSigns(g: real, e: real, rest: real)
    requires 0.0 < g && 0.0 <= e < 1.0 && rest == g * (1.0 - e)
    ensures 0.0 <= g * e && 0.0 < rest
  {}
}
