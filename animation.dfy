/**
  The animation schedule of one ripple (`TouchEffect.animate`), as a
  function of the milliseconds elapsed since the first animation frame.
  Compose's `animate` takes its start time from its first frame, and both
  coroutines begin in the same frame, so time 0 is that frame.

  `animate` launches two coroutines and joins them:
  - the first tweens `spreadValue` from 0.3 to 1 over 250 ms and, once that
    call has returned, tweens `fadeValue` from 1 to 0 over 500 ms;
  - the second tweens `fadeValue` from 0 to 1 over 100 ms.
  Each tween is a channel. A channel's value at time t follows the tween's
  easing curve `e` between its start and its end, is its initial value at
  or before the start and exactly its target value at or after the end.
  The easing curve is left abstract: any monotone curve on [0, 1] that maps
  0 to 0 and 1 to 1 (`IsEasing`).
*/
module Animation {

  /** The three tweens `animate` runs, one per `animate(...)` call. */
  datatype Channel = Spread | FadeOut | FadeIn

  /** Milliseconds after the first frame at which the channel's tween begins. */
  function Start(c: Channel): (t: int)
    ensures 0 <= t
  {
    match c
    // the spread tween is the first call of the first coroutine
    case Spread => 0
    // the fade-out tween is the second call of the same coroutine, so it begins
    // when the spread tween has ended
    case FadeOut => Duration(Spread)
    // the fade-in tween is the only call of the second coroutine
    case FadeIn => 0
  }

  /** `TweenSpec(durationMillis = ...)` of each channel. */
  function Duration(c: Channel): (d: int)
    ensures 0 < d
  {
    match c
    case Spread => 250
    case FadeOut => 500
    case FadeIn => 100
  }

  function End(c: Channel): (t: int)
    ensures Start(c) < t
  {
    Start(c) + Duration(c)
  }

  /** `initialValue` of each tween. */
  function From(c: Channel): (v: real)
    ensures 0.0 <= v <= 1.0
  {
    match c
    case Spread => 0.3
    case FadeOut => 1.0
    case FadeIn => 0.0
  }

  /** `targetValue` of each tween. */
  function To(c: Channel): (v: real)
    ensures 0.0 <= v <= 1.0
    ensures v != From(c)
  {
    match c
    case Spread => 1.0
    case FadeOut => 0.0
    case FadeIn => 1.0
  }

  /** A curve fit to be a tween's easing: monotone on [0, 1], from 0 to 1. */
  ghost predicate IsEasing(e: real -> real) {
    && e(0.0) == 0.0
    && e(1.0) == 1.0
    && forall a, b :: 0.0 <= a <= b <= 1.0 ==> e(a) <= e(b)
  }

  /** The fraction of the channel's duration that has elapsed at time t, clamped to [0, 1]. */
  function Progress(c: Channel, t: int): (f: real)
    ensures 0.0 <= f <= 1.0
  {
    if t <= Start(c) then 0.0
    else if End(c) <= t then 1.0
    else (t - Start(c)) as real / Duration(c) as real
  }

  /**
    The value the channel's tween delivers for a frame at time t: the
    initial value in the tween's first frame, exactly the target from its
    end on, and in between a point of the eased path from one to the other.
  */
  function ChannelValue(c: Channel, e: real -> real, t: int): (v: real)
    ensures t <= Start(c) ==> v == From(c)
    ensures End(c) <= t ==> v == To(c)
    ensures IsEasing(e) ==> (From(c) <= v <= To(c) || To(c) <= v <= From(c))
  {
    if t <= Start(c) then From(c)
    else if End(c) <= t then To(c)
    else
      EasedFraction(c, e, t);
      From(c) + (To(c) - From(c)) * e(Progress(c, t))
  }

  lemma ProgressMonotone(c: Channel, t1: int, t2: int)
    requires t1 <= t2
    ensures Progress(c, t1) <= Progress(c, t2)
  {
    if Start(c) < t1 && t2 < End(c) {
      var d := Duration(c) as real;
      assert 0.0 < d;
      assert (t1 - Start(c)) as real <= (t2 - Start(c)) as real;
      assert (t1 - Start(c)) as real / d <= (t2 - Start(c)) as real / d;
    }
  }

  /** With a proper easing curve the clamped ends agree with the eased formula. */
  lemma ChannelValueEased(c: Channel, e: real -> real, t: int)
    requires IsEasing(e)
    ensures ChannelValue(c, e, t) == From(c) + (To(c) - From(c)) * e(Progress(c, t))
  {
  }

  /** The eased fraction stays in [0, 1] and grows with time. */
  lemma EasedProgressMonotone(c: Channel, e: real -> real, t1: int, t2: int)
    requires IsEasing(e)
    requires t1 <= t2
    ensures 0.0 <= e(Progress(c, t1)) <= e(Progress(c, t2)) <= 1.0
  {
    ProgressMonotone(c, t1, t2);
    var f1, f2 := Progress(c, t1), Progress(c, t2);
    assert e(0.0) <= e(f1);
    assert e(f1) <= e(f2);
    assert e(f2) <= e(1.0);
  }

  /** With a proper easing curve the eased fraction at any one time lies in [0, 1]. */
  lemma EasedFraction(c: Channel, e: real -> real, t: int)
    ensures IsEasing(e) ==> 0.0 <= e(Progress(c, t)) <= 1.0
  {
    if IsEasing(e) {
      EasedProgressMonotone(c, e, t, t);
    }
  }

  /** A channel moves from its initial value towards its target and never back. */
  lemma ChannelMonotone(c: Channel, e: real -> real, t1: int, t2: int)
    requires IsEasing(e)
    requires t1 <= t2
    ensures From(c) <= To(c) ==> From(c) <= ChannelValue(c, e, t1) <= ChannelValue(c, e, t2) <= To(c)
    ensures To(c) <= From(c) ==> From(c) >= ChannelValue(c, e, t1) >= ChannelValue(c, e, t2) >= To(c)
  {
    EasedProgressMonotone(c, e, t1, t2);
    ChannelValueEased(c, e, t1);
    ChannelValueEased(c, e, t2);
    var g1, g2 := e(Progress(c, t1)), e(Progress(c, t2));
    match c
    case Spread =>
      assert ChannelValue(c, e, t1) == 0.3 + 0.7 * g1;
      assert ChannelValue(c, e, t2) == 0.3 + 0.7 * g2;
    case FadeOut =>
      assert ChannelValue(c, e, t1) == 1.0 - g1;
      assert ChannelValue(c, e, t2) == 1.0 - g2;
    case FadeIn =>
      assert ChannelValue(c, e, t1) == g1;
      assert ChannelValue(c, e, t2) == g2;
  }

  /** The two fields of a `TouchEffect` that the tweens write. */
  datatype EffectState = EffectState(spread: real, fade: real)

  /** `mutableFloatStateOf(0f)` for both fields: what a new effect holds before its first frame. */
  const Unstarted := EffectState(0.0, 0.0)

  /** The channel whose writes `fadeValue` shows at time t: fade-out once it has begun. */
  function FadeChannel(t: int): (c: Channel)
    ensures c == FadeIn || c == FadeOut
  {
    if t < Start(FadeOut) then FadeIn else FadeOut
  }

  /**
    Both fields at time t; a negative t is a moment before the first frame.
    From the first frame on, both fields are fractions and spread is at
    least its initial 0.3.
  */
  function Schedule(e: real -> real, t: int): (s: EffectState)
    ensures t < 0 ==> s == Unstarted
    ensures IsEasing(e) && 0 <= t ==> 0.3 <= s.spread <= 1.0 && 0.0 <= s.fade <= 1.0
  {
    if t < 0 then Unstarted
    else EffectState(ChannelValue(Spread, e, t), ChannelValue(FadeChannel(t), e, t))
  }

  /** The channel's tween is running (its frames write) at time t. */
  predicate Running(c: Channel, t: int) {
    Start(c) <= t <= End(c)
  }

  function Max(a: int, b: int): (m: int)
    ensures a <= m && b <= m && (m == a || m == b)
  {
    if a < b then b else a
  }

  /**
    `coroutineScope` returns when both coroutines have: the first after its
    fade-out, the second after its fade-in.
  */
  function CompletionTime(): (t: int)
    ensures forall c: Channel :: End(c) <= t
  {
    Max(End(FadeOut), End(FadeIn))
  }

  predicate Completed(t: int) {
    CompletionTime() <= t
  }

  /** The fade-out tween begins exactly when the spread tween ends. */
  lemma FadeOutFollowsSpread()
    ensures Start(FadeOut) == End(Spread) == 250
    ensures End(FadeOut) == 750
  {
  }

  /**
    The fade-in tween has ended before the fade-out begins: the nominal
    intervals of the two writers of `fadeValue` never overlap, and a frame
    writes with both only when it follows a frame before the fade-in's end
    and itself comes at or after the fade-out's start.
  */
  lemma FadeWritersDisjoint(prev: int, t: int)
    ensures End(FadeIn) < Start(FadeOut)
    ensures !(Running(FadeIn, t) && Running(FadeOut, t))
    ensures Writes(FadeIn, prev, t) && Writes(FadeOut, prev, t) <==> prev < End(FadeIn) && Start(FadeOut) <= t
  {
  }

  /** Join, not race: the effect completes at 750 ms, when every channel has ended and not before. */
  lemma CompletionIsJoin(t: int)
    ensures CompletionTime() == 750
    ensures Completed(t) <==> (forall c: Channel :: End(c) <= t)
  {
    if forall c: Channel :: End(c) <= t {
      assert End(FadeOut) <= t && End(FadeIn) <= t;
    }
  }

  /** Spread starts at 0.3, reaches 1 at 250 ms and stays there; it is 0 before the first frame. */
  lemma SpreadSchedule(e: real -> real, t: int)
    requires IsEasing(e)
    ensures t < 0 ==> Schedule(e, t).spread == 0.0
    ensures t == 0 ==> Schedule(e, t).spread == 0.3
    ensures 0 <= t ==> 0.3 <= Schedule(e, t).spread <= 1.0
    ensures End(Spread) <= t ==> Schedule(e, t).spread == 1.0
  {
    if 0 <= t {
      ChannelMonotone(Spread, e, 0, t);
    }
  }

  lemma SpreadMonotone(e: real -> real, t1: int, t2: int)
    requires IsEasing(e)
    requires 0 <= t1 <= t2
    ensures Schedule(e, t1).spread <= Schedule(e, t2).spread
  {
    ChannelMonotone(Spread, e, t1, t2);
  }

  /** Fade is 0 at the first frame, 1 from 100 ms until 250 ms, and 0 from 750 ms on. */
  lemma FadeSchedule(e: real -> real, t: int)
    requires IsEasing(e)
    ensures t <= 0 ==> Schedule(e, t).fade == 0.0
    ensures End(FadeIn) <= t <= Start(FadeOut) ==> Schedule(e, t).fade == 1.0
    ensures End(FadeOut) <= t ==> Schedule(e, t).fade == 0.0
    ensures 0.0 <= Schedule(e, t).fade <= 1.0
  {
    if 0 <= t {
      ChannelMonotone(FadeChannel(t), e, t, t);
    }
  }

  /** Fade rises while the fade-in runs and falls from then on. */
  lemma FadeRisesThenFalls(e: real -> real, t1: int, t2: int)
    requires IsEasing(e)
    requires t1 <= t2
    ensures 0 <= t1 && t2 <= End(FadeIn) ==> Schedule(e, t1).fade <= Schedule(e, t2).fade
    ensures End(FadeIn) <= t1 ==> Schedule(e, t1).fade >= Schedule(e, t2).fade
  {
    if 0 <= t1 && t2 <= End(FadeIn) {
      ChannelMonotone(FadeIn, e, t1, t2);
    }
    if End(FadeIn) <= t1 {
      if t1 < Start(FadeOut) {
        if Start(FadeOut) <= t2 {
          ChannelMonotone(FadeOut, e, Start(FadeOut), t2);
        }
      } else {
        ChannelMonotone(FadeOut, e, t1, t2);
      }
    }
  }

  /** A completed effect shows full spread and no opacity. */
  lemma CompletedState(e: real -> real, t: int)
    requires Completed(t)
    ensures Schedule(e, t) == EffectState(1.0, 0.0)
  {
  }

  /**
    The callback of channel c runs in a frame at time t that follows a frame
    at time prev: the tween has begun and had not yet delivered its target.
  */
  predicate Writes(c: Channel, prev: int, t: int) {
    Start(c) <= t && prev < End(c)
  }

  /**
    One animation frame at time t, after one at time prev: every channel
    whose callback runs writes its field; a field nobody writes keeps its
    value. When both fade channels run in one frame the fade-out's value is
    the one kept. In Compose the fade-out begins only in the frame after the
    one in which spread ends, so such a frame shows the fade-in's target
    there; the model lets the fade-out begin at its nominal 250 ms instead.
  */
  function ApplyFrame(s: EffectState, e: real -> real, prev: int, t: int): (r: EffectState)
    ensures t < 0 ==> r == s
    ensures Completed(prev) ==> r == s
    ensures prev < End(Spread) <= t ==> r.spread == 1.0
    ensures prev < End(FadeOut) <= t ==> r.fade == 0.0
  {
    var spread := if Writes(Spread, prev, t) then ChannelValue(Spread, e, t) else s.spread;
    var fade :=
      if Writes(FadeOut, prev, t) then ChannelValue(FadeOut, e, t)
      else if Writes(FadeIn, prev, t) then ChannelValue(FadeIn, e, t)
      else s.fade;
    EffectState(spread, fade)
  }

  /** However far apart two frames are, the second shows the schedule at its own time. */
  lemma FrameFollowsSchedule(e: real -> real, prev: int, t: int)
    requires prev < t
    ensures ApplyFrame(Schedule(e, prev), e, prev, t) == Schedule(e, t)
  {
  }
}
