/**
  `TouchEffect`: one ripple. Its two fields are overwritten frame by frame
  by the callbacks of the tweens that `animate` runs.
*/
module Effect {
  import opened Geometry
  import opened Animation

  /** True when the sequence of frame times is strictly increasing. */
  predicate Increasing(frames: seq<int>) {
    forall i, j :: 0 <= i < j < |frames| ==> frames[i] < frames[j]
  }

  class TouchEffect {
    /** Where the touch happened; fixed for the ripple's lifetime. */
    const offset: Point
    /** The easing curve of the tweens (the default of `TweenSpec`). */
    const easing: real -> real
    var spreadValue: real
    var fadeValue: real
    /**
      The time of the last animation frame shown, in milliseconds since
      the first one; -1 before the first frame. It stands for the progress
      state the running tweens keep.
    */
    var lastFrame: int

    function State(): (s: EffectState)
      reads this
    {
      EffectState(spreadValue, fadeValue)
    }

    /** The fields show the schedule at the time of the last frame. */
    ghost predicate Valid()
      reads this
    {
      IsEasing(easing) && -1 <= lastFrame && State() == Schedule(easing, lastFrame)
    }

    /** `TouchEffect(offset)`: both fields start at 0 and no frame has been shown. */
    constructor (offset: Point, easing: real -> real)
      requires IsEasing(easing)
      ensures Valid()
      ensures this.offset == offset && this.easing == easing
      ensures spreadValue == 0.0 && fadeValue == 0.0 && lastFrame == -1
    {
      this.offset := offset;
      this.easing := easing;
      spreadValue := 0.0;
      fadeValue := 0.0;
      lastFrame := -1;
    }

    /**
      One animation frame at time t: the callbacks of the running tweens
      write their values (`spreadValue = value`, `fadeValue = value`), the
      fade-out's after the fade-in's.
    */
    method OnFrame(t: int)
      requires Valid()
      requires lastFrame < t
      // the tweens take their start time from their first frame
      requires lastFrame == -1 ==> t == 0
      modifies this
      ensures Valid()
      ensures lastFrame == t
      ensures State() == ApplyFrame(old(State()), easing, old(lastFrame), t)
      ensures State() == Schedule(easing, t)
      ensures old(lastFrame) == -1 ==> spreadValue == 0.3 && fadeValue == 0.0
    {
      if Writes(Spread, lastFrame, t) {
        spreadValue := ChannelValue(Spread, easing, t);
      }
      if Writes(FadeIn, lastFrame, t) {
        fadeValue := ChannelValue(FadeIn, easing, t);
      }
      if Writes(FadeOut, lastFrame, t) {
        fadeValue := ChannelValue(FadeOut, easing, t);
      }
      FrameFollowsSchedule(easing, lastFrame, t);
      lastFrame := t;
    }

    /**
      `animate()`: shows the frames the frame clock delivers, in order,
      until both coroutines have finished, then returns this very effect.
      The frame clock is the environment: it keeps ticking past completion.
      Frame times count from the first frame, so the first one is at 0.
    */
    method Animate(frames: seq<int>) returns (r: TouchEffect)
      requires Valid()
      requires lastFrame == -1
      requires Increasing(frames) && 0 < |frames|
      requires frames[0] == 0 && Completed(frames[|frames| - 1])
      modifies this
      ensures r == this
      ensures Valid()
      ensures lastFrame in frames && Completed(lastFrame)
      ensures forall i :: 0 <= i < |frames| && frames[i] < lastFrame ==> !Completed(frames[i])
      ensures spreadValue == 1.0 && fadeValue == 0.0
    {
      var i := 0;
      while !Completed(lastFrame)
        invariant 0 <= i <= |frames|
        invariant Valid()
        invariant i == 0 ==> lastFrame == -1
        invariant 0 < i ==> lastFrame == frames[i - 1]
        invariant forall j :: 0 <= j < i - 1 ==> !Completed(frames[j])
        decreases |frames| - i
      {
        if i == |frames| {
          // the last frame is past completion, so the loop has ended by now
          assert false;
        }
        OnFrame(frames[i]);
        i := i + 1;
      }
      CompletedState(easing, lastFrame);
      forall j | 0 <= j < |frames| && frames[j] < lastFrame
        ensures !Completed(frames[j])
      {
        if i - 1 <= j {
          // frames[j] would then be at least the last frame shown
          assert false;
        }
      }
      r := this;
    }
  }
}
