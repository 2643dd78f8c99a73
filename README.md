# Touch ripple: a Dafny model

A model of the logic inside `layout/TouchRipple.kt` of the Jetpack Compose
touch-ripple component. A tap creates a `TouchEffect` at the tap's position.
The effect is attached to a `TouchRippleController`, animated and detached
again. The canvas draws every attached effect as a filled circle. The circle
is centred on the touch, its radius is large enough to cover the whole
surface, and `spreadValue` and `fadeValue` scale it.

Modules, one per component of the file:

- `Geometry` (`geometry.dfy`): `Point`, `Point.distance`, and the coverage
  radius `distance(Zero, center) + distance(touch, center)`. It proves the
  triangle inequality (through Cauchy-Schwarz) and that all four corners are
  as far from the centre as the top-left one. From these it proves that the
  radius reaches every point of the surface.
- `Animation` (`animation.dfy`): the schedule of `TouchEffect.animate` as a
  pure function of the milliseconds since the first animation frame. There are
  three tweens ("channels"): spread 0.3 to 1 over 250 ms, then fade-out 1 to
  0 over 500 ms in the same coroutine, and fade-in 0 to 1 over 100 ms in a
  second coroutine. The tween's easing curve is any monotone curve on [0, 1]
  with e(0) = 0 and e(1) = 1. The module also gives what one animation frame
  writes into the two fields.
- `Effect` (`effect.dfy`): the class `TouchEffect`. Its `spreadValue` and
  `fadeValue` are overwritten frame by frame. Its invariant is that the
  fields always show the schedule at the time of the last frame. `Animate`
  shows frames until both coroutines have finished and returns `this`.
- `Registry` (`registry.dfy`): the class `TouchRippleController` over a
  `seq<TouchEffect>`. `Detach` removes the first occurrence by reference
  identity, which is what `MutableList.remove` does for a class without
  `equals`. Pure lemmas cover any interleaving of other taps' attach and
  detach calls.
- `Gesture` (`gesture.dfy`): the tap handler. It creates, attaches, animates
  and detaches the effect that `animate` returned.
- `Render` (`render.dfy`): the `Canvas` block. It produces one circle per
  attached effect, with radius `circleRadius * spreadValue` and alpha
  `color.alpha * fadeValue`.

Square roots: Dafny's reals have no `sqrt`. `Distance` and everything built
on it take a parameter `sqrt: real -> real`, and `IsSqrt` constrains that
parameter to be the exact non-negative square root on the non-negative
reals. Easing curves work the same way: they are a parameter constrained by
`IsEasing`.

Time: an integer number of milliseconds since the first animation frame
after `animate()` was called. Compose's `animate` takes its start time from
its first frame and delivers `initialValue` there, and both coroutines begin
in the same frame, so that frame is time 0. A negative time is a moment
before the first frame. At that point both fields still hold their initial
`0f`.

Frames: a tween's callback runs in every frame from its start until the
first frame at or after its end. In that last frame Compose delivers exactly
the target value. If one frame covers the end of fade-in and the start of
fade-out, the fade-out's value is the one kept. This is an approximation. In
the source the fade-out begins only in the frame after the one in which
spread ends, so such a frame shows the fade-in's target 1.0, where the model
shows the fade-out already under way (see "## Left out").

Three behaviours of the code that one might expect to be otherwise:

- A zero-size surface gives radius `distance(touch, (0,0))`, not always 0.
  It is 0 only for a touch at the surface's single point (`DegenerateSurface`).
- The tween durations are constants (250, 500 and 100 ms). The code has no
  duration check and no error path for a non-positive duration.
- The two writers of `fadeValue` do not overlap. Fade-in ends at 100 ms and
  fade-out begins at 250 ms, so nothing races in the code.

## Model

| member | source | states |
|---|---|---|
| Geometry.Distance | layout/TouchRipple.kt:35-39 | the distance is non-negative and its square is the sum of the squared coordinate differences |
| Geometry.DistanceSymmetric | layout/TouchRipple.kt:35-39 | distance(p, q) == distance(q, p) |
| Geometry.DistanceZeroIffSame | layout/TouchRipple.kt:35-39 | the distance is zero exactly when both points are the same |
| Geometry.DistanceTranslationInvariant | layout/TouchRipple.kt:35-39 | translating both points by one vector keeps their distance |
| Geometry.TriangleInequality | layout/TouchRipple.kt:35-39 | distance(a, c) <= distance(a, b) + distance(b, c) |
| Geometry.Center | layout/TouchRipple.kt:147 | `center` is the midpoint of both diagonals of the surface, equally far from opposite corners |
| Geometry.CornersEquidistant | layout/TouchRipple.kt:146-147 | every corner of the surface is as far from the centre as the top-left corner |
| Geometry.CenterIsNearest | layout/TouchRipple.kt:146-147 | no point of the surface is farther from the centre than the top-left corner |
| Geometry.CoversCorners | layout/TouchRipple.kt:146-152 | the sum of distance(Zero, center) and distance(touch, center) reaches each of the four corners |
| Geometry.CoverageRadius | layout/TouchRipple.kt:146-152 | the radius is non-negative and at least the distance from the touch to each of the four corners |
| Geometry.RippleCoversSurface | layout/TouchRipple.kt:146-152 | every point of [0, w] x [0, h] is within the radius of the touch |
| Geometry.CoverageRadiusBounds | layout/TouchRipple.kt:146-152 | the radius is at least the distance to the farthest corner and exceeds it by at most the touch-to-centre distance |
| Geometry.OppositeCornerFar | layout/TouchRipple.kt:146-152 | the touch is at least the half-diagonal away from the top-left or the bottom-right corner |
| Geometry.DegenerateSurface | layout/TouchRipple.kt:146-152 | on a 0 x 0 surface a touch at its only point gives radius 0 |
| Geometry.TapAtTopLeftOfSquare | layout/TouchRipple.kt:146-152 | a tap at (0,0) on 100 x 100 gives radius 2 * distance((0,0),(50,50)), whose square is 20000 |
| Animation.ChannelValue | layout/TouchRipple.kt:57-74 | a tween delivers its initial value at or before its start, exactly its target from its end on, and otherwise a value between the two |
| Animation.ChannelMonotone | layout/TouchRipple.kt:57-74 | every tween moves monotonically from its initial value to its target and stays between the two |
| Animation.FadeOutFollowsSpread | layout/TouchRipple.kt:56-67 | the fade-out starts exactly when the spread ends (250 ms) and ends at 750 ms |
| Animation.FadeWritersDisjoint | layout/TouchRipple.kt:55-76 | the nominal intervals are disjoint: fade-in ends at 100 ms, before fade-out begins at 250 ms; a model frame writes with both exactly when it follows a frame before 100 ms and comes at or after 250 ms |
| Animation.CompletionIsJoin | layout/TouchRipple.kt:55-76 | completion is at 750 ms, exactly when every tween has ended (join, not race) |
| Animation.Schedule | layout/TouchRipple.kt:51-78 | both fields are 0 before the first frame; from then on both are fractions and spread is at least 0.3 |
| Animation.SpreadSchedule | layout/TouchRipple.kt:56-61 | spread is 0 before the first frame, 0.3 at the start, within [0.3, 1], and 1 from 250 ms on |
| Animation.SpreadMonotone | layout/TouchRipple.kt:56-61 | spread never decreases |
| Animation.FadeSchedule | layout/TouchRipple.kt:55-76 | fade is 0 at and before the start, 1 on [100, 250], 0 from 750 ms on, always within [0, 1] |
| Animation.FadeRisesThenFalls | layout/TouchRipple.kt:55-76 | fade never decreases until 100 ms and never increases from 100 ms on |
| Animation.CompletedState | layout/TouchRipple.kt:54-78 | at completion spread is 1 and fade is 0 |
| Animation.ApplyFrame | layout/TouchRipple.kt:61-74 | a frame before the start or after completion changes nothing; the frame that ends the spread writes 1, the one that ends the fade-out writes 0 |
| Animation.FrameFollowsSchedule | layout/TouchRipple.kt:56-75 | one frame at t after a frame at prev turns the schedule's state at prev into the state at t, however far apart the two frames are |
| Effect.TouchEffect.constructor | layout/TouchRipple.kt:48-52 | a new effect keeps its offset, and both fields are 0 with no frame shown yet |
| Effect.TouchEffect.OnFrame | layout/TouchRipple.kt:56-75 | the running tweens' callbacks write the fields, and afterwards they show the schedule at the frame's time; the first frame, at time 0, shows the initial values 0.3 and 0 |
| Effect.TouchEffect.Animate | layout/TouchRipple.kt:54-78 | returns this; with frames counted from the first one, finishes at the first frame at or after 750 ms, with spread 1 and fade 0 |
| Registry.Without | layout/TouchRipple.kt:87-89 | removal shortens a list holding the effect by exactly one; an absent effect leaves the list unchanged |
| Registry.WithoutMultiset | layout/TouchRipple.kt:87-89 | removal takes exactly one copy of the effect out of the list's multiset, and none when it is absent |
| Registry.WithoutRemovesFirst | layout/TouchRipple.kt:87-89 | removal drops exactly the first occurrence and keeps the order of all other entries |
| Registry.WithoutAppendOther | layout/TouchRipple.kt:84-89 | detaching x after attaching some other y leaves y last and removes x from the earlier part |
| Registry.WithoutAppended | layout/TouchRipple.kt:84-89 | attaching an absent effect and then detaching it restores the list |
| Registry.WithoutCommutes | layout/TouchRipple.kt:87-89 | two detaches give the same list in either order |
| Registry.DetachCommutes | layout/TouchRipple.kt:84-89 | detaching x commutes with any changes that concern other effects |
| Registry.OccurrencesKept | layout/TouchRipple.kt:84-89 | changes that concern other effects keep the count of x |
| Registry.LifecycleIsolation | layout/TouchRipple.kt:109-113 | interleaved with other taps, a ripple is in the list exactly once while it animates, is gone after its detach, and the others are left as they were |
| Registry.TwoTaps | layout/TouchRipple.kt:109-113 | with two ripples, whichever finishes first leaves the other in place |
| Registry.TouchRippleController.constructor | layout/TouchRipple.kt:81-82 | a new controller holds no effects |
| Registry.TouchRippleController.Attach | layout/TouchRipple.kt:84-86 | appends the effect at the end, keeps earlier entries, and does not reject duplicates |
| Registry.TouchRippleController.Detach | layout/TouchRipple.kt:87-89 | the new list is the old one without the first occurrence of that instance |
| Gesture.ApplyChanges | layout/TouchRipple.kt:84-89 | a sequence of attach and detach calls leaves the list that the pure model of those changes gives |
| Gesture.OnTap | layout/TouchRipple.kt:108-113 | after a tap's lifecycle the list is what the other taps' changes alone make it: the tap removes only its own effect |
| Render.CoversWholeSurface | layout/TouchRipple.kt:146-152 | every point of the surface is within the coverage radius |
| Render.RippleCircle | layout/TouchRipple.kt:146-158 | the circle is centred on the touch; at full spread it covers the surface; radius and alpha scale with spread and fade |
| Render.CircleOfState | layout/TouchRipple.kt:154-158 | once spread has reached 0.3, the circle's radius is at least 30% of the coverage radius |
| Render.CircleOverLifetime | layout/TouchRipple.kt:144-158 | nothing drawn before the first frame; covers the surface from 250 ms; full alpha on [100, 250]; transparent once complete |
| Render.DrawFrame | layout/TouchRipple.kt:143-160 | one circle per attached effect, in list order, each the circle of that effect's current fields |

## Left out

- Compose UI plumbing is left out: `Box`, `Canvas`, `Modifier.pointerInput`, `detectTapGestures`, `clipRect`, `drawCircle` and the `remember*` helpers. They are framework calls. `drawCircle` is modelled only as the circle it receives.
- The blur gate on the SDK version (`Build.VERSION.SDK_INT >= 32`) is left out. It detects a platform capability.
- The theme colour (`Theme.current.touchRipple`) is left out. The model takes its alpha as a parameter.
- `Point.offset` is not modelled as a separate member. `Offset` and `Point` are the same `Point` datatype here.
- Coroutine scheduling is left out. The two `launch` blocks are a time-indexed schedule. The frame clock is the `frames` parameter of `Animate` and `OnTap`. While a tap handler is suspended, other taps' changes are its `others` parameter.
- Effect.TouchEffect.Animate: requires a frame clock that ticks at or past 750 ms. A real frame clock always does; without one, `animate` would never return.
- Effect.TouchEffect.Animate: a tween that follows another begins at its nominal time (250 ms). In Compose it begins in the frame after the one where the previous tween ended.
- Gesture.OnTap: the changes `others` of other taps can name only effects that exist when this tap begins. A tap that starts while this one animates creates its effect later, so those interleavings are covered only by the pure lemma `Registry.LifecycleIsolation`, which takes any unrelated changes.
- Cancellation is not modelled. If the coroutine scope is cancelled while `animate()` is suspended, for example when the detector leaves composition, the `detach` call never runs and a controller owned by the caller keeps the effect.
- Animation.ApplyFrame: a frame at or after 250 ms that follows a frame before 100 ms writes with both fade tweens and keeps the fade-out's value, for example 1 - e(0.1) for a frame at 300 ms after one at 50 ms. In the source the fade-in delivers its target 1.0 in that frame and the fade-out begins only in the next one.
- The thread safety of `mutableStateListOf` snapshot state is left out.
- The default easing of `TweenSpec` (a cubic Bézier) is not modelled. Any monotone curve with e(0) = 0 and e(1) = 1 stands for it.
- Float precision and `kotlin.math.sqrt` are not modelled. Values are exact reals and the square root is exact.
- The callbacks `onTap`, `onTapStart` and `onTapEnd` are left out. `onTap` only switches gesture detection on, and the other two are never used.
