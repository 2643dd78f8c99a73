/**
  The `Canvas` block of `TouchRipple`: for every attached effect, in list
  order, one filled circle centred on the touch, with radius
  `circleRadius * spreadValue` and alpha `color.alpha * fadeValue`.
  Drawing itself is the host's; the model produces the circles to draw.
*/
module Render {
  import opened Geometry
  import opened Animation
  import opened Effect
  import opened Registry

  /** The arguments of one `drawCircle` call. */
  datatype Circle = Circle(center: Point, radius: real, alpha: real)

  /** 0 <= a * b <= a when a is non-negative and b is a fraction. */
  lemma ScaledByFraction(a: real, b: real)
    ensures 0.0 <= a && 0.0 <= b <= 1.0 ==> 0.0 <= a * b <= a
  {
    if 0.0 <= a && 0.0 <= b <= 1.0 {
      assert a * b <= a * 1.0;
    }
  }

  /** lo * a <= a * b when a is non-negative and b is at least lo. */
  lemma ScaledAtLeast(a: real, b: real, lo: real)
    requires 0.0 <= a && lo <= b
    ensures lo * a <= a * b
  {
    assert a * b - lo * a == a * (b - lo);
    assert 0.0 <= a * (b - lo);
  }

  /** Every point of the surface lies within the coverage radius of the touch. */
  lemma CoversWholeSurface(offset: Point, width: real, height: real, sqrt: real -> real)
    requires IsSqrt(sqrt)
    ensures forall q :: OnSurface(q, width, height) ==>
      Distance(offset, q, sqrt) <= CoverageRadius(offset, width, height, sqrt)
  {
    forall q | OnSurface(q, width, height)
      ensures Distance(offset, q, sqrt) <= CoverageRadius(offset, width, height, sqrt)
    {
      RippleCoversSurface(offset, width, height, q, sqrt);
    }
  }

  /**
    The circle drawn for one effect on a surface of the given size: centred
    on the touch; at full spread it covers the whole surface; its alpha is
    the colour's scaled by the fade.
  */
  function RippleCircle(offset: Point, spread: real, fade: real, width: real, height: real,
                        colorAlpha: real, sqrt: real -> real): (c: Circle)
    requires IsSqrt(sqrt)
    ensures c.center == offset
    ensures spread == 0.0 ==> c.radius == 0.0
    ensures 0.0 <= spread <= 1.0 ==> 0.0 <= c.radius <= CoverageRadius(offset, width, height, sqrt)
    ensures spread == 1.0 ==> forall q :: OnSurface(q, width, height) ==> Distance(offset, q, sqrt) <= c.radius
    ensures fade == 0.0 ==> c.alpha == 0.0
    ensures fade == 1.0 ==> c.alpha == colorAlpha
    ensures 0.0 <= colorAlpha && 0.0 <= fade <= 1.0 ==> 0.0 <= c.alpha <= colorAlpha
  {
    var circleRadius := CoverageRadius(offset, width, height, sqrt);
    CoversWholeSurface(offset, width, height, sqrt);
    ScaledByFraction(circleRadius, spread);
    ScaledByFraction(colorAlpha, fade);
    Circle(offset, circleRadius * spread, colorAlpha * fade)
  }

  /** Once spread has reached its initial 0.3, the circle is at least 30% of the coverage radius. */
  lemma CircleOfState(offset: Point, spread: real, fade: real, width: real, height: real,
                      colorAlpha: real, sqrt: real -> real)
    requires IsSqrt(sqrt)
    ensures 0.3 <= spread ==>
      0.3 * CoverageRadius(offset, width, height, sqrt)
        <= RippleCircle(offset, spread, fade, width, height, colorAlpha, sqrt).radius
  {
    var r := CoverageRadius(offset, width, height, sqrt);
    var c := RippleCircle(offset, spread, fade, width, height, colorAlpha, sqrt);
    if 0.3 <= spread {
      calc {
        0.3 * r;
      <= { ScaledAtLeast(r, spread, 0.3); }
        r * spread;
      ==
        c.radius;
      }
    }
  }

  /**
    What the canvas draws for an effect over its lifetime: nothing before
    the first frame; at least 30% of the coverage radius from then on and
    the whole surface from 250 ms; full colour alpha from 100 ms to 250 ms;
    transparent once complete.
  */
  lemma CircleOverLifetime(offset: Point, e: real -> real, t: int, width: real, height: real,
                           colorAlpha: real, sqrt: real -> real)
    requires IsSqrt(sqrt) && IsEasing(e)
    requires 0.0 <= colorAlpha <= 1.0
    ensures var s := Schedule(e, t);
      var c := RippleCircle(offset, s.spread, s.fade, width, height, colorAlpha, sqrt);
      && 0.0 <= c.radius <= CoverageRadius(offset, width, height, sqrt)
      && 0.0 <= c.alpha <= colorAlpha
      && (t < 0 ==> c.radius == 0.0 && c.alpha == 0.0)
      && (0 <= t ==> 0.3 * CoverageRadius(offset, width, height, sqrt) <= c.radius)
      && (End(Spread) <= t ==> forall q :: OnSurface(q, width, height) ==> Distance(offset, q, sqrt) <= c.radius)
      && (End(FadeIn) <= t <= Start(FadeOut) ==> c.alpha == colorAlpha)
      && (Completed(t) ==> c.alpha == 0.0)
  {
    var s := Schedule(e, t);
    SpreadSchedule(e, t);
    FadeSchedule(e, t);
    CircleOfState(offset, s.spread, s.fade, width, height, colorAlpha, sqrt);
  }

  /** `controller.effects.forEach { drawCircle(...) }`: one circle per effect, in list order. */
  method DrawFrame(controller: TouchRippleController, width: real, height: real,
                   colorAlpha: real, sqrt: real -> real) returns (circles: seq<Circle>)
    requires IsSqrt(sqrt)
    ensures |circles| == |controller.effects|
    ensures forall i :: 0 <= i < |circles| ==>
      var it := controller.effects[i];
      circles[i] == RippleCircle(it.offset, it.spreadValue, it.fadeValue, width, height, colorAlpha, sqrt)
  {
    circles := [];
    for i := 0 to |controller.effects|
      invariant |circles| == i
      invariant forall j :: 0 <= j < i ==>
        var it := controller.effects[j];
        circles[j] == RippleCircle(it.offset, it.spreadValue, it.fadeValue, width, height, colorAlpha, sqrt)
    {
      var it := controller.effects[i];
      circles := circles + [RippleCircle(it.offset, it.spreadValue, it.fadeValue, width, height, colorAlpha, sqrt)];
    }
  }
}
