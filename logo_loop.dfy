/**
 * The `LogoLoop` component's own state (src/components/ui/LogoLoop.tsx,
 * lines 210-326): the measured sequence size, the number of copies to
 * render and the hover flag, with the props they depend on.
 */
module LogoLoopComponent {
  import opened Optional
  import opened LogoLoopArith
  import opened LogoLoopMotion

  class LogoLoop {
    // Props, fixed for the life of the instance.
    const speed: real
    const direction: Direction
    const pauseOnHover: Option<bool>
    const hoverSpeed: Option<real>
    // State (lines 232-237).
    var seqWidth: int
    var seqHeight: int
    var copyCount: int
    var isHovered: bool

    /** `effectiveHoverSpeed` for these props. */
    function HoverSpeed(): (h: Option<real>)
    {
      EffectiveHoverSpeed(hoverSpeed, pauseOnHover)
    }

    /** `targetVelocity` for these props. */
    function Velocity(): (v: real)
    {
      TargetVelocity(speed, direction)
    }

    /**
     * Always at least MIN_COPIES copies, sizes never negative, and no hover
     * state unless hovering has a speed of its own.
     */
    ghost predicate Valid()
      reads this
    {
      && MIN_COPIES <= copyCount
      && 0 <= seqWidth && 0 <= seqHeight
      && (HoverSpeed().None? ==> !isHovered)
    }

    constructor (speed: real, direction: Direction, pauseOnHover: Option<bool>, hoverSpeed: Option<real>)
      ensures Valid()
      ensures this.speed == speed && this.direction == direction
      ensures this.pauseOnHover == pauseOnHover && this.hoverSpeed == hoverSpeed
      ensures seqWidth == 0 && seqHeight == 0 && copyCount == MIN_COPIES && !isHovered
    {
      this.speed, this.direction := speed, direction;
      this.pauseOnHover, this.hoverSpeed := pauseOnHover, hoverSpeed;
      seqWidth, seqHeight, copyCount, isHovered := 0, 0, MIN_COPIES, false;
    }

    /**
     * `updateDimensions` (lines 261-288), given what it measures: the
     * container's width, the vertical viewport (the container's height, or
     * its parent's) and the first sequence's bounding width and height.
     * Only a positive size along the scrolling axis is recorded, rounded up,
     * together with the copy count it calls for.
     */
    method UpdateDimensions(containerWidth: int, viewportHeight: int,
                            sequenceWidth: real, sequenceHeight: real)
      requires Valid()
      modifies this
      ensures Valid()
      ensures isHovered == old(isHovered)
      ensures IsVertical(direction) && 0.0 < sequenceHeight ==>
        && seqHeight == Ceil(sequenceHeight) && seqWidth == old(seqWidth)
        && copyCount == CopyCount(viewportHeight, sequenceHeight)
      ensures !IsVertical(direction) && 0.0 < sequenceWidth ==>
        && seqWidth == Ceil(sequenceWidth) && seqHeight == old(seqHeight)
        && copyCount == CopyCount(containerWidth, sequenceWidth)
      ensures (if IsVertical(direction) then sequenceHeight else sequenceWidth) <= 0.0 ==>
        seqWidth == old(seqWidth) && seqHeight == old(seqHeight) && copyCount == old(copyCount)
    {
      if IsVertical(direction) {
        if 0.0 < sequenceHeight {
          seqHeight := Ceil(sequenceHeight);
          copyCount := CopyCount(viewportHeight, sequenceHeight);
        }
      } else if 0.0 < sequenceWidth {
        seqWidth := Ceil(sequenceWidth);
        copyCount := CopyCount(containerWidth, sequenceWidth);
      }
    }

    /** `handleMouseEnter` (lines 321-323). */
    method MouseEnter()
      requires Valid()
      modifies this
      ensures Valid()
      ensures isHovered == (HoverSpeed().Some? || old(isHovered))
      ensures seqWidth == old(seqWidth) && seqHeight == old(seqHeight) && copyCount == old(copyCount)
    {
      if HoverSpeed().Some? {
        isHovered := true;
      }
    }

    /** `handleMouseLeave` (lines 324-326). */
    method MouseLeave()
      requires Valid()
      modifies this
      ensures Valid()
      ensures !isHovered
      ensures seqWidth == old(seqWidth) && seqHeight == old(seqHeight) && copyCount == old(copyCount)
    {
      if HoverSpeed().Some? {
        isHovered := false;
      }
    }

    /** The velocity the next frame steers towards (lines 177-178, 301-309). */
    method FrameTargetNow() returns (target: real)
      requires Valid()
      ensures HoverSpeed().None? || !isHovered ==> target == Velocity()
      ensures isHovered ==> target == HoverSpeed().value
    {
      target := FrameTarget(isHovered, HoverSpeed(), Velocity());
    }
  }
}
