/**
 What one scroll update computes from the pinned section's progress `p`
 (ScrollTrigger's `self.progress`, in [0, 1]): the frame to show, and the
 opacity and depth of the three overlays (navigation bar, header, hero image).
 */
module ScrollMapping {
  import Numeric
  import opened Wrappers

  /** Scroll progress after which the last frame is held. */
  const Reveal: real := 0.9

  /**
   `Math.round(Math.min(p / 0.9, 1) * (frameCount - 1))`: the index of the
   frame shown at scroll progress `p`.
   */
  function TargetFrame(p: real, frameCount: nat): (f: int)
    ensures 0.0 <= p && 1 <= frameCount ==> 0 <= f < frameCount
    ensures p == 0.0 ==> f == 0
    ensures Reveal <= p ==> f == frameCount - 1
  {
    var animation := Numeric.Min(p / Reveal, 1.0);
    var last := (frameCount - 1) as real;
    ScaledFrameFacts(animation, frameCount);
    Numeric.Round(animation * last)
  }

  /** Bounds of the rounded frame position for a rescaled progress `a`. */
  lemma ScaledFrameFacts(a: real, frameCount: nat)
    ensures 0.0 <= a <= 1.0 && 1 <= frameCount ==>
      0 <= Numeric.Round(a * (frameCount - 1) as real) < frameCount
    ensures a == 0.0 ==> Numeric.Round(a * (frameCount - 1) as real) == 0
    ensures a == 1.0 ==> Numeric.Round(a * (frameCount - 1) as real) == frameCount - 1
  {
    if 0.0 <= a <= 1.0 && 1 <= frameCount {
      Numeric.RoundScaled(a, frameCount - 1);
    }
    if a == 0.0 {
      assert a * (frameCount - 1) as real == 0.0;
      Numeric.RoundOfInt(0);
    }
    if a == 1.0 {
      assert a * (frameCount - 1) as real == (frameCount - 1) as real;
      Numeric.RoundOfInt(frameCount - 1);
    }
  }

  /** The smallest scroll progress at which frame `k` is the exact target. */
  function FrameStart(k: nat, frameCount: nat): (p: real)
    requires k < frameCount
    ensures 0.0 <= p <= Reveal
    ensures k == 0 ==> p == 0.0
  {
    if frameCount == 1 then 0.0
    else
      var p := Reveal * k as real / (frameCount - 1) as real;
      assert k as real <= (frameCount - 1) as real;
      assert k as real / (frameCount - 1) as real <= 1.0;
      p
  }

  /** A later scroll position never shows an earlier frame. */
  lemma TargetFrameMonotonic(p1: real, p2: real, frameCount: nat)
    requires p1 <= p2 && 1 <= frameCount
    ensures TargetFrame(p1, frameCount) <= TargetFrame(p2, frameCount)
  {
    var a1 := Numeric.Min(p1 / Reveal, 1.0);
    var a2 := Numeric.Min(p2 / Reveal, 1.0);
    var last := (frameCount - 1) as real;
    assert TargetFrame(p1, frameCount) == Numeric.Round(a1 * last);
    assert TargetFrame(p2, frameCount) == Numeric.Round(a2 * last);
    assert p1 / Reveal <= p2 / Reveal by {
      assert p1 * (1.0 / Reveal) <= p2 * (1.0 / Reveal);
    }
    assert a1 <= a2;
    ScaledRoundMonotonic(a1, a2, last);
  }

  lemma ScaledRoundMonotonic(a1: real, a2: real, c: real)
    requires a1 <= a2 && 0.0 <= c
    ensures Numeric.Round(a1 * c) <= Numeric.Round(a2 * c)
  {
    Numeric.ScaleMonotonic(a1, a2, c);
    Numeric.RoundMonotonic(a1 * c, a2 * c);
  }

  /** Every frame is shown somewhere in the reveal window: at `FrameStart(k)` the target is `k`. */
  lemma EveryFrameShown(k: nat, frameCount: nat)
    requires k < frameCount
    ensures TargetFrame(FrameStart(k, frameCount), frameCount) == k
  {
    var p := FrameStart(k, frameCount);
    if frameCount > 1 {
      var last := (frameCount - 1) as real;
      var q := k as real / last;
      assert p == Reveal * q;
      assert p / Reveal == q;
      assert q <= 1.0;
      assert Numeric.Min(p / Reveal, 1.0) == q;
      assert q * last == k as real;
      Numeric.RoundOfInt(k);
    }
  }

  // ---------------------------------------------------------------------------
  // Overlay schedules

  /** The navigation bar fades out over the first tenth of the scroll. */
  function NavOpacity(p: real): (o: real)
    ensures 0.0 <= p ==> o <= 1.0
    ensures p <= 1.0 ==> 0.0 <= o
    ensures p == 0.0 ==> o == 1.0
    ensures 0.1 <= p ==> o == 0.0
  {
    if p <= 0.1 then 1.0 - p / 0.1 else 0.0
  }

  /**
   The header's style: `translateZ` is `None` where the source leaves the
   transform as it was and sets only the opacity.
   */
  datatype HeaderStyle = HeaderStyle(translateZ: Option<real>, opacity: real)


  /**
   The header recedes to depth -500 over the first quarter of the scroll,
   fading out between 0.2 and 0.25.
   */
  function Header(p: real): (s: HeaderStyle)
    ensures 0.0 <= p <= 1.0 ==> 0.0 <= s.opacity <= 1.0
    ensures p < 0.2 ==> s.opacity == 1.0
    ensures 0.25 <= p ==> s.opacity == 0.0
    ensures s.translateZ.Some? <==> p <= 0.25
    ensures 0.0 <= p && s.translateZ.Some? ==> -500.0 <= s.translateZ.value <= 0.0
  {
    if p <= 0.25 then
      var translateZ := p / 0.25 * -500.0;
      var opacity :=
        if p >= 0.2 then 1.0 - Numeric.Min((p - 0.2) / (0.25 - 0.2), 1.0) else 1.0;
      HeaderStyle(Some(translateZ), opacity)
    else
      HeaderStyle(None, 0.0)
  }

  /** The hero image's depth and opacity. */
  datatype HeroStyle = HeroStyle(translateZ: real, opacity: real)

  /**
   The hero image waits at depth 1000, invisible, until 0.6; it then comes
   forward to depth 0 by 0.9, fading in fully by 0.8.
   */
  function Hero(p: real): (s: HeroStyle)
    ensures 0.0 <= s.opacity <= 1.0
    ensures 0.0 <= s.translateZ <= 1000.0
    ensures p < 0.6 ==> s == HeroStyle(1000.0, 0.0)
    ensures Reveal <= p ==> s == HeroStyle(0.0, 1.0)
  {
    if p < 0.6 then HeroStyle(1000.0, 0.0)
    else if p >= 0.6 && p <= 0.9 then
      var imgProgress := (p - 0.6) / 0.3;
      var translateZ := 1000.0 - imgProgress * 1000.0;
      var opacity := if p <= 0.8 then (p - 0.6) / 0.2 else 1.0;
      HeroStyle(translateZ, opacity)
    else HeroStyle(0.0, 1.0)
  }

  /** The navigation bar never reappears as the scroll moves forward. */
  lemma NavFadesMonotonically(p1: real, p2: real)
    requires p1 <= p2
    ensures NavOpacity(p2) <= NavOpacity(p1)
  {
  }

  /** Moving forward, the header only recedes and only fades. */
  lemma HeaderRecedes(p1: real, p2: real)
    requires 0.0 <= p1 <= p2
    ensures Header(p2).opacity <= Header(p1).opacity
    ensures Header(p2).translateZ.Some? ==> Header(p2).translateZ.value <= Header(p1).translateZ.value
  {
  }

  /** Moving forward, the hero image only approaches and only brightens. */
  lemma HeroApproaches(p1: real, p2: real)
    requires p1 <= p2
    ensures Hero(p1).opacity <= Hero(p2).opacity
    ensures Hero(p2).translateZ <= Hero(p1).translateZ
  {
  }
}
