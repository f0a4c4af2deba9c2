# Logo carousel and folder widget — a Dafny model

This project models the two components of the portfolio site that hold logic
rather than layout.

- **The logo carousel** (`src/components/ui/LogoLoop.tsx`). A ticker renders
  several copies of a logo sequence and scrolls them on every animation frame,
  wrapping the scroll offset so the loop is seamless. The model covers:
  - JavaScript's truncated `%` and the double-remainder wrap `((x % s) + s) % s`;
  - the number of copies rendered for a measured viewport and sequence size;
  - the signed target velocity from `speed` and `direction`;
  - the effective hover speed and the per-frame choice of target;
  - one step of velocity smoothing, and the time elapsed between frames;
  - the component state (`seqWidth`, `seqHeight`, `copyCount`, `isHovered`)
    and its update on measurement and on mouse enter and leave;
  - the animation refs (`offsetRef`, `velocityRef`, `lastTimestampRef`,
    `rafRef`) across effect start, frames and cleanup;
  - the image-load countdown that fires `onLoad`;
  - the string helpers `cx` and `toCssLength`.
- **The folder widget** (`src/components/reactbits/Folder.tsx`). A folder opens
  and closes on click. While it is open, one paper can be pulled out.
  `open` and `activeIdx` are fields of a class, with the two click handlers
  as methods. Pure transition functions carry the lemmas about runs of clicks.

JavaScript numbers are exact `real`s here. The sizes the component rounds
with `Math.ceil` are `int`s, and so is the viewport (a `clientWidth`).
`undefined` and `null` are `Option.None`.

Modules, one per concern:

| file | module | covers |
|---|---|---|
| optional.dfy | `Optional` | `Option` |
| logo_arith.dfy | `LogoLoopArith` | `%`, the offset wrap, copy count |
| logo_motion.dfy | `LogoLoopMotion` | velocity, hover speed, frame target, easing |
| logo_text.dfy | `LogoLoopText` | `cx`, `toCssLength` |
| logo_images.dfy | `LogoLoopImages` | `useImageLoader` |
| logo_animation.dfy | `LogoLoopAnimation` | `useAnimationLoop` |
| logo_loop.dfy | `LogoLoopComponent` | the component's state and handlers |
| folder.dfy | `FolderWidget` | the folder's state machine |

A note on the folder: clicking the same paper twice on an open folder does
not always restore the selection. It does when no paper was out, or when
that same paper was out. When another paper was out, the first click selects
the clicked paper and the second clears it. `PaperClickTwice` and
`PaperClickInvolution` state exactly this.

## Model

| member | source | states |
|---|---|---|
| LogoLoopArith.Ceil | src/components/ui/LogoLoop.tsx:274 | `Math.ceil`: the least integer not below its argument |
| LogoLoopArith.JsRem | src/components/ui/LogoLoop.tsx:154 | JavaScript `x % s` for s > 0: in [0, s) for x ≥ 0, in (-s, 0] for x < 0, and x minus it is a whole multiple of s |
| LogoLoopArith.Normalize | src/components/ui/LogoLoop.tsx:154 | `((x % s) + s) % s` for s > 0 lies in [0, s) and differs from x by whole multiples of s |
| LogoLoopArith.NormalizeIsFlooredModulo | src/components/ui/LogoLoop.tsx:186 | the double remainder equals the floored modulo x - s·floor(x/s), an independent definition |
| LogoLoopArith.NormalizeWholePixels | src/components/ui/LogoLoop.tsx:186 | on integers the double remainder is the Euclidean `x % s` |
| LogoLoopArith.NormalizeFixesRange | src/components/ui/LogoLoop.tsx:184-187 | an offset already in [0, s) is not moved by the wrap |
| LogoLoopArith.NormalizeIdempotent | src/components/ui/LogoLoop.tsx:153-154 | wrapping an already wrapped offset changes nothing |
| LogoLoopArith.NormalizeShift | src/components/ui/LogoLoop.tsx:184-187 | moving the offset by n whole sequences gives the same wrapped offset (the loop is seamless) |
| LogoLoopArith.WrapOffset | src/components/ui/LogoLoop.tsx:153-154 | with sequence size ≤ 0 the offset is unchanged; otherwise it is in [0, s) and congruent to the old offset |
| LogoLoopArith.CeilCovers | src/components/ui/LogoLoop.tsx:276-278 | ceil(v/e) sequences of length e cover v, and one fewer does not |
| LogoLoopArith.CopyCount | src/components/ui/LogoLoop.tsx:283-286 | copy count ≥ MIN_COPIES and ≥ ceil(viewport/seq) + COPY_HEADROOM; all but the headroom copies cover the viewport; above MIN_COPIES, one copy fewer would not (`Math.max` is the helper `Max`, `Math.ceil` is `Ceil`) |
| LogoLoopMotion.TargetVelocity | src/components/ui/LogoLoop.tsx:248-259 | the magnitude is \|speed\|; the velocity is speed for left/up and -speed for right/down (`Math.abs` is the helper `Abs`, `isVertical` at line 246 is `IsVertical`) |
| LogoLoopMotion.DefaultTargetVelocity | src/components/ui/LogoLoop.tsx:213-214 | with the default speed of 120 the target velocity is 120 to the left and -120 to the right |
| LogoLoopMotion.NegativeSpeedReverses | src/components/ui/LogoLoop.tsx:257-258 | negating the speed negates the velocity |
| LogoLoopMotion.OppositeDirections | src/components/ui/LogoLoop.tsx:250-256 | right is the negation of left and down of up |
| LogoLoopMotion.EffectiveHoverSpeed | src/components/ui/LogoLoop.tsx:239-244 | an explicit hoverSpeed wins; otherwise the result is undefined iff pauseOnHover is false, and 0 when defined |
| LogoLoopMotion.FrameTarget | src/components/ui/LogoLoop.tsx:177-178 | the hover speed while hovered and defined, the target velocity otherwise |
| LogoLoopMotion.DefaultHoverPauses | src/components/ui/LogoLoop.tsx:241-243 | with neither prop set, hovering steers the track to a stop |
| LogoLoopMotion.HoverIgnoredWhenNotPausing | src/components/ui/LogoLoop.tsx:242 | with pauseOnHover false and no hoverSpeed the target is always the target velocity |
| LogoLoopMotion.FrameDelta | src/components/ui/LogoLoop.tsx:169-175 | elapsed seconds are never negative; zero on the first frame and when the timestamp is earlier than the last one; the timestamp difference / 1000 otherwise |
| LogoLoopMotion.Ease | src/components/ui/LogoLoop.tsx:180-182 | for easing in [0, 1) the new velocity lies between the old velocity and the target, never reaches a different target, and is unchanged at easing 0; the gap to the target shrinks by the factor 1 - easing, so a positive easing always moves it |
| LogoLoopText.KeptParts | src/components/ui/LogoLoop.tsx:58 | `filter(Boolean)` keeps only non-empty strings that occur among the parts, and every truthy part |
| LogoLoopText.KeptPartsAppend | src/components/ui/LogoLoop.tsx:58 | the filter distributes over concatenation of the argument lists, which fixes order and multiplicity |
| LogoLoopText.KeptPartsSingle | src/components/ui/LogoLoop.tsx:58 | a single part is kept, as its string, exactly when it is truthy |
| LogoLoopText.Cx | src/components/ui/LogoLoop.tsx:57-58 | the class string, `JoinWithSpaces` (`join(" ")`) of `KeptParts`, is empty iff no part is truthy |
| LogoLoopText.JoinAppend | src/components/ui/LogoLoop.tsx:58 | `JoinWithSpaces`, the model of `join(" ")`: two non-empty lists join to their joins separated by one space |
| LogoLoopText.CxAppend | src/components/ui/LogoLoop.tsx:57-58 | `cx` of two argument lists is their class strings separated by one space, or whichever is non-empty |
| LogoLoopText.CxSingle | src/components/ui/LogoLoop.tsx:57-58 | `cx` of one argument is that string when truthy and "" otherwise |
| LogoLoopText.SplitAtSpace | src/components/ui/LogoLoop.tsx:58 | splitting `a + " " + b` on spaces gives the pieces of a followed by the pieces of b |
| LogoLoopText.SplitJoin | src/components/ui/LogoLoop.tsx:58 | splitting the space-join of any words gives each word's own pieces, in order |
| LogoLoopText.JoinSplitRoundTrip | src/components/ui/LogoLoop.tsx:58 | splitting `join(" ")` of space-free non-empty words on spaces gives back the words |
| LogoLoopText.CxClassNames | src/components/ui/LogoLoop.tsx:57-58 | for any arguments with a truthy one, multi-class strings included, the space-separated pieces of `cx`'s result are the pieces of its truthy parts, in order |
| LogoLoopText.DecimalRoundTrip | src/components/ui/LogoLoop.tsx:55 | the decimal `IntToDecimal` prints for a whole number (the `${value}` template) reads back as that number |
| LogoLoopText.ToCssLength | src/components/ui/LogoLoop.tsx:54-55 | undefined stays undefined, a string passes through, a number n becomes a decimal reading back as n followed by "px" |
| LogoLoopImages.DistinctSettlementsCoverAll | src/components/ui/LogoLoop.tsx:101-107 | n settlements of images below n, none repeated, include every image |
| LogoLoopImages.ImageLoader.constructor | src/components/ui/LogoLoop.tsx:93-117 | with no images onLoad runs at once; complete images settle immediately, the rest get load and error listeners; onLoad has run iff all were complete |
| LogoLoopImages.ImageLoader.HandleImageLoad | src/components/ui/LogoLoop.tsx:102-107 | the counter drops by one and onLoad runs when it reaches zero |
| LogoLoopImages.ImageLoader.Fire | src/components/ui/LogoLoop.tsx:114-115 | an attached listener runs once and is detached; an event with no listener changes nothing |
| LogoLoopImages.ImageLoader.Cleanup | src/components/ui/LogoLoop.tsx:119-124 | all listeners are detached, nothing else changes |
| LogoLoopImages.ImageLoader.OnLoadOnce | src/components/ui/LogoLoop.tsx:96-107 | onLoad runs at most once, exactly when the number of settlements reaches the image count, and then every image has settled if none settled twice |
| LogoLoopAnimation.AdvanceOffset | src/components/ui/LogoLoop.tsx:184-187 | the next offset is in [0, s) and congruent to offset + velocity·dt; unchanged when s ≤ 0 |
| LogoLoopAnimation.StillFrame | src/components/ui/LogoLoop.tsx:184-187 | a frame with dt = 0 does not move an offset already in [0, s) |
| LogoLoopAnimation.AnimationLoop.constructor | src/components/ui/LogoLoop.tsx:137-140 | offset and velocity 0, no timestamp, no frame requested |
| LogoLoopAnimation.AnimationLoop.Start | src/components/ui/LogoLoop.tsx:143-198 | without a track nothing changes; otherwise the axis size is chosen, the offset wrapped, and a frame requested unless reduced motion is preferred |
| LogoLoopAnimation.AnimationLoop.Frame | src/components/ui/LogoLoop.tsx:168-195 | records the timestamp, eases the velocity towards the frame target, advances and wraps the offset; the first frame after a start moves nothing |
| LogoLoopAnimation.AnimationLoop.Stop | src/components/ui/LogoLoop.tsx:200-206 | cancels the frame request and forgets the timestamp, keeping offset, velocity, sizes and the captured target and hover settings |
| LogoLoopComponent.LogoLoop.constructor | src/components/ui/LogoLoop.tsx:232-237 | sizes 0, copyCount MIN_COPIES, not hovered |
| LogoLoopComponent.LogoLoop.UpdateDimensions | src/components/ui/LogoLoop.tsx:261-288 | only a positive size along the scrolling axis is recorded (rounded up), with its copy count; otherwise size and copy count are kept |
| LogoLoopComponent.LogoLoop.MouseEnter | src/components/ui/LogoLoop.tsx:321-323 | hover is set only when the effective hover speed is defined |
| LogoLoopComponent.LogoLoop.MouseLeave | src/components/ui/LogoLoop.tsx:324-326 | afterwards not hovered (the invariant: no hover state without a hover speed) |
| LogoLoopComponent.LogoLoop.FrameTargetNow | src/components/ui/LogoLoop.tsx:301-309 | the frame target for the current hover state: the target velocity unless hovered with a hover speed |
| FolderWidget.FolderClicked | src/components/reactbits/Folder.tsx:20-23 | clicking the folder flips `open` and clears the selection |
| FolderWidget.PaperClicked | src/components/reactbits/Folder.tsx:25-29 | a paper click opens a closed folder keeping the selection; on an open folder it selects that paper, or clears it if it was selected |
| FolderWidget.FolderClickTwice | src/components/reactbits/Folder.tsx:20-23 | two folder clicks restore `open` with nothing selected |
| FolderWidget.PaperClickTwice | src/components/reactbits/Folder.tsx:28 | two clicks on one paper of an open folder leave it selected if it was, else nothing selected |
| FolderWidget.PaperClickInvolution | src/components/reactbits/Folder.tsx:28 | the double paper click restores the state iff nothing or that paper was selected |
| FolderWidget.StepConsistent | src/components/reactbits/Folder.tsx:20-29 | each handler keeps "a selection implies open and a valid index" |
| FolderWidget.RunConsistent | src/components/reactbits/Folder.tsx:17-29 | any run of rendered clicks from a consistent state ends consistent |
| FolderWidget.ReachableConsistent | src/components/reactbits/Folder.tsx:60-65 | every state reachable from closed-and-unselected has selection ⇒ open and index < items |
| FolderWidget.Folder.constructor | src/components/reactbits/Folder.tsx:17-18 | closed, nothing selected |
| FolderWidget.Folder.HandleFolderClick | src/components/reactbits/Folder.tsx:20-23 | the new state is FolderClicked of the old; the invariant is kept |
| FolderWidget.Folder.HandlePaperClick | src/components/reactbits/Folder.tsx:25-29 | the new state is PaperClicked of the old; the invariant is kept |

## Left out

- DOM measurement is not modelled: `clientWidth`, `getBoundingClientRect` and the parent's height. The measured values are parameters of `UpdateDimensions`.
- Writing the container's height in vertical mode (lines 268-272) is a DOM side effect and is not modelled.
- The `ResizeObserver` hook and its window-resize fallback (lines 60-86) only decide when `updateDimensions` runs. That is browser I/O.
- `requestAnimationFrame` and `cancelAnimationFrame` are modelled as the `scheduled` flag. When frames run is up to the browser.
- The `prefers-reduced-motion` media query is a parameter of `Start`.
- `LogoLoopMotion.Ease`: the easing factor `1 - Math.exp(-dt / SMOOTH_TAU)` is a parameter in [0, 1) that is zero exactly when no time has passed. The exponential and `SMOOTH_TAU` are not modelled, because they are floating-point numerics. In IEEE doubles the factor rounds to exactly 1.0 once dt exceeds about 9.4 seconds (the first frame after a background tab resumes), and the velocity then jumps exactly to the target; the clause that a different target is never reached does not describe that case.
- Numbers are exact reals. IEEE-754 rounding, NaN and the infinities are not modelled.
- `LogoLoopArith.JsRem`: models `%` only for a positive divisor. The carousel divides only by a sequence size it has checked is positive.
- `LogoLoopText.ToCssLength`: a number prop is modelled as whole pixels. JavaScript's printing of fractions, and its exponent form for magnitudes of 10^21 and above, are not modelled.
- `LogoLoopImages.ImageLoader.OnLoadOnce`: "every image has settled" is proved only when no image settled twice. A browser fires either `load` or `error` at an image, not both, but the model does not force that on its callers.
- `querySelectorAll("img")` is not modelled. The images are given by their `complete` flags.
- Props are constants for the life of an instance in the class models. Re-rendering with new props is not modelled, and neither is the effect re-running on its dependencies beyond `Stop` then `Start`.
- The prop defaults (`speed` 120, `direction` "left") are constants. Default resolution during destructuring is not modelled.
- Rendering is not modelled: JSX, the `logoLists` copies, `renderLogoItemInternal`, CSS variables, fade overlays and the folder's per-paper transforms are presentation only.
- `src/components/sections/Projects.tsx`, `src/components/sections/TechStack.tsx` and `src/app/layout.tsx` are not part of this model. They are static data and declarative markup.
