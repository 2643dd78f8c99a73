/**
  The tap handler of `TouchRippleGestureDetector`: for every tap it creates
  a `TouchEffect` at the tap's position, attaches it, awaits `animate()` and
  detaches the effect that `animate()` returns.

  The handler runs in its own coroutine. While it is suspended in `animate`,
  the coroutines of other taps attach and detach their own effects; those
  changes are the parameter `others`.
*/
module Gesture {
  import opened Geometry
  import opened Animation
  import opened Effect
  import opened Registry

  /** The controller's own `attach`/`detach` calls, in order. */
  method ApplyChanges(controller: TouchRippleController, cs: seq<Change<TouchEffect>>)
    modifies controller
    ensures controller.effects == Run(old(controller.effects), cs)
  {
    for i := 0 to |cs|
      invariant Run(controller.effects, cs[i..]) == Run(old(controller.effects), cs)
    {
      assert cs[i..][1..] == cs[i + 1..];
      match cs[i]
      case Attached(e) => controller.Attach(e);
      case Detached(e) => controller.Detach(e);
    }
  }

  /**
    One tap at `position`. The effect detached is the effect attached,
    because `animate` returns `this`; so the tap removes no other ripple and
    leaves the list as the other taps alone make it. The changes `others`
    name effects that exist when the tap begins.
  */
  method OnTap(controller: TouchRippleController, position: Point, easing: real -> real,
               frames: seq<int>, others: seq<Change<TouchEffect>>)
    requires IsEasing(easing)
    requires Increasing(frames) && 0 < |frames|
    requires frames[0] == 0 && Completed(frames[|frames| - 1])
    modifies controller
    ensures controller.effects == Run(old(controller.effects), others)
  {
    var effect := new TouchEffect(position, easing);
    assert effect !in controller.effects;
    assert Unrelated(others, effect);
    controller.Attach(effect);
    ApplyChanges(controller, others);
    LifecycleIsolation(old(controller.effects), effect, others);
    // the effect stays attached while it animates
    assert effect in controller.effects;
    var finished := effect.Animate(frames);
    controller.Detach(finished);
  }
}
