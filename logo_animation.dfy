/**
 * `useAnimationLoop` (src/components/ui/LogoLoop.tsx, lines 128-208): the
 * refs that carry the scroll offset, the smoothed velocity and the previous
 * frame's timestamp across animation frames, and the effect that (re)starts
 * the frame loop whenever the velocity, sizes or hover state change.
 */
module LogoLoopAnimation {
  import opened Optional
  import opened LogoLoopArith
  import opened LogoLoopMotion

  /**
   * The offset after a frame (lines 184-187): moved by velocity times the
   * elapsed seconds and wrapped into one sequence; left alone while no
   * sequence size is known.
   */
  function AdvanceOffset(offset: real, velocity: real, dt: real, seqSize: int): (r: real)
    ensures seqSize <= 0 ==> r == offset
    ensures 0 < seqSize ==> 0.0 <= r < seqSize as real
    ensures 0 < seqSize ==> IsWholeMultiple(offset + velocity * dt - r, seqSize as real)
  {
    if 0 < seqSize then Normalize(offset + velocity * dt, seqSize) else offset
  }

  /** A frame with no elapsed time leaves an already wrapped offset where it is. */
  lemma StillFrame(offset: real, velocity: real, seqSize: int)
    requires 0 < seqSize && 0.0 <= offset < seqSize as real
    ensures AdvanceOffset(offset, velocity, 0.0, seqSize) == offset
  {
    assert offset + velocity * 0.0 == offset;
    NormalizeFixesRange(offset, seqSize);
  }

  class AnimationLoop {
    /** `offsetRef`: how far the track is scrolled, in pixels. */
    var offset: real
    /** `velocityRef`: the smoothed velocity, in pixels per second. */
    var velocity: real
    /** `lastTimestampRef`: the previous frame's time, in milliseconds. */
    var lastTimestamp: Option<real>
    /** `rafRef` holds a pending frame request. */
    var scheduled: bool
    // What the running effect's closure captured (line 207's dependencies).
    var targetVelocity: real
    var isHovered: bool
    var hoverSpeed: Option<real>
    var seqSize: int

    /** While a sequence size is known, the offset lies within one sequence. */
    ghost predicate Valid()
      reads this
    {
      0 < seqSize ==> 0.0 <= offset < seqSize as real
    }

    constructor ()
      ensures Valid()
      ensures offset == 0.0 && velocity == 0.0 && lastTimestamp.None? && !scheduled
      ensures seqSize == 0
    {
      offset, velocity, lastTimestamp, scheduled := 0.0, 0.0, None, false;
      targetVelocity, isHovered, hoverSpeed, seqSize := 0.0, false, None, 0;
    }

    /**
     * The effect body (lines 143-198). With a mounted track it picks the
     * sequence size for the axis, wraps the offset into it, and, unless the
     * user prefers reduced motion, requests the first frame. React runs the
     * previous cleanup (Stop) before the effect runs again, so no frame is
     * pending on entry.
     */
    method Start(trackMounted: bool, prefersReduced: bool, targetVelocity: real,
                 seqWidth: int, seqHeight: int, isHovered: bool, hoverSpeed: Option<real>,
                 isVertical: bool)
      requires Valid() && !scheduled
      modifies this
      ensures Valid()
      ensures !trackMounted ==> unchanged(this)
      ensures trackMounted ==>
        && seqSize == (if isVertical then seqHeight else seqWidth)
        && offset == WrapOffset(old(offset), seqSize)
        && scheduled == !prefersReduced
        && this.targetVelocity == targetVelocity && this.isHovered == isHovered
        && this.hoverSpeed == hoverSpeed
        && velocity == old(velocity) && lastTimestamp == old(lastTimestamp)
    {
      if !trackMounted {
        return;
      }
      seqSize := if isVertical then seqHeight else seqWidth;
      this.targetVelocity, this.isHovered, this.hoverSpeed := targetVelocity, isHovered, hoverSpeed;
      if 0 < seqSize {
        offset := Normalize(offset, seqSize);
      }
      if !prefersReduced {
        scheduled := true;
      }
    }

    /**
     * One call of `animate` (lines 168-195). `easing` stands for
     * 1 - exp(-dt / SMOOTH_TAU), which is zero exactly when no time passed
     * and otherwise lies strictly between 0 and 1.
     */
    method Frame(timestamp: real, easing: real)
      requires Valid() && scheduled
      requires 0.0 <= easing < 1.0
      requires (easing == 0.0) == (FrameDelta(lastTimestamp, timestamp) == 0.0)
      modifies this
      ensures Valid() && scheduled
      ensures lastTimestamp == Some(timestamp)
      ensures velocity == Ease(old(velocity), FrameTarget(isHovered, hoverSpeed, targetVelocity), easing)
      ensures offset == AdvanceOffset(old(offset), velocity, FrameDelta(old(lastTimestamp), timestamp), seqSize)
      ensures old(lastTimestamp).None? ==> offset == old(offset) && velocity == old(velocity)
      ensures targetVelocity == old(targetVelocity) && isHovered == old(isHovered)
      ensures hoverSpeed == old(hoverSpeed) && seqSize == old(seqSize)
    {
      if lastTimestamp.None? {
        lastTimestamp := Some(timestamp);
      }
      var deltaTime := FrameDelta(lastTimestamp, timestamp);
      lastTimestamp := Some(timestamp);
      var target := FrameTarget(isHovered, hoverSpeed, targetVelocity);
      velocity := Ease(velocity, target, easing);
      if deltaTime == 0.0 && 0 < seqSize {
        StillFrame(offset, velocity, seqSize);
      }
      offset := AdvanceOffset(offset, velocity, deltaTime, seqSize);
    }

    /** The effect's cleanup (lines 200-206, and 163-165 under reduced motion). */
    method Stop()
      requires Valid()
      modifies this
      ensures Valid()
      ensures !scheduled && lastTimestamp.None?
      ensures offset == old(offset) && velocity == old(velocity) && seqSize == old(seqSize)
      ensures targetVelocity == old(targetVelocity) && isHovered == old(isHovered)
      ensures hoverSpeed == old(hoverSpeed)
    {
      scheduled := false;
      lastTimestamp := None;
    }
  }
}
