/** Per-cell styling of one animation frame. A cell starts at the baseline
    style, is tinted teal by pointer proximity, and is then overwritten, in
    store order, by every ripple whose expanding ring passes over it visibly.
    Distances are inputs: the pointer distance is a real, and the distance
    from the cell to each ripple's origin is given by `rDist`.
 */
module Styling {
  import opened RippleStore
  import HexGrid

  const BaseScale: real := 0.9
  const InfluenceRadius: real := 150.0
  /** Scale gained at full pointer intensity. */
  const PointerBump: real := 0.15
  /** Ring expansion speed, in pixels per millisecond. */
  const WaveSpeed: real := 0.2
  /** Half-width of the ring, in pixels. */
  const WaveWidth: real := 100.0
  /** Scale gained at full ring intensity. */
  const RippleBump: real := 0.3
  /** A ring at or below this intensity leaves the cell alone. */
  const Threshold: real := 0.01

  /** The colours a cell can take: the two slate baseline colours and the
      teal (pointer) and purple (ripple) accents with their alpha. */
  datatype Colour = SlateFill | SlateStroke | Teal(alpha: real) | Purple(alpha: real)

  datatype Style = Style(fill: Colour, stroke: Colour, scale: real)

  const Baseline: Style := Style(SlateFill, SlateStroke, BaseScale)

  function Max(a: real, b: real): real {
    if a >= b then a else b
  }

  /** Linear pointer falloff: 1 on the pointer, 0 at the influence radius. */
  function PointerIntensity(dist: real): real {
    1.0 - dist / InfluenceRadius
  }

  /** Baseline style, tinted by the pointer when it is closer than
      `InfluenceRadius`. */
  function PointerStyle(dist: real): (st: Style)
    ensures dist >= InfluenceRadius <==> st == Baseline
    ensures 0.0 <= dist < InfluenceRadius ==>
              && 0.0 < PointerIntensity(dist) <= 1.0
              && st.fill == Teal(PointerIntensity(dist) * 0.15)
              && st.stroke == Teal(PointerIntensity(dist) * 0.5)
              && st.scale == BaseScale + PointerBump * PointerIntensity(dist)
              && BaseScale < st.scale <= BaseScale + PointerBump
    ensures dist == 0.0 ==> st.scale == BaseScale + PointerBump
  {
    if dist < InfluenceRadius then
      var intensity := PointerIntensity(dist);
      Style(Teal(intensity * 0.15), Teal(intensity * 0.5), BaseScale + intensity * PointerBump)
    else
      Baseline
  }

  /** Closer cells are tinted more: inside the influence radius the intensity
      and both teal alphas strictly decrease with the distance, and the
      pointer scale never grows with the distance. */
  lemma PointerFalloff(d1: real, d2: real)
    requires 0.0 <= d1 < d2
    ensures d2 < InfluenceRadius ==> PointerIntensity(d1) > PointerIntensity(d2)
    ensures d2 < InfluenceRadius ==>
              && PointerStyle(d1).fill.alpha > PointerStyle(d2).fill.alpha
              && PointerStyle(d1).stroke.alpha > PointerStyle(d2).stroke.alpha
    ensures PointerStyle(d1).scale >= PointerStyle(d2).scale
  {
  }

  /** Distance between the cell and the ring of a ripple of age `age`. */
  function RingOffset(rDist: real, age: real): real {
    HexGrid.Abs(rDist - age * WaveSpeed)
  }

  /** Ring intensity: a triangular profile across the ring times a linear
      decay over the time to live; zero off the ring. */
  function RingIntensity(rDist: real, age: real): (w: real)
    ensures w >= 0.0
    ensures w > 0.0 <==> RingOffset(rDist, age) < WaveWidth && age < Ttl
  {
    var offset := RingOffset(rDist, age);
    if offset < WaveWidth then
      var profile := 1.0 - offset / WaveWidth;
      var decay := Max(0.0, 1.0 - age / Ttl);
      assert profile > 0.0;
      assert decay > 0.0 <==> age < Ttl;
      profile * decay
    else
      0.0
  }

  lemma MulNonNeg(a: real, b: real)
    requires a >= 0.0 && b >= 0.0
    ensures a * b >= 0.0
  {
  }

  /** A product of a factor in (0, 1] and one in [0, 1] is at most 1. */
  lemma ProductAtMostOne(p: real, d: real)
    requires 0.0 < p <= 1.0 && 0.0 <= d <= 1.0
    ensures p * d <= 1.0
  {
    MulNonNeg(1.0 - p, d);
    assert (1.0 - p) * d == d - p * d;
  }

  /** The profile of a ripple of negative age `-b` is at most `1 - b/500`, and
      that loss outweighs the decay factor's gain of `b/2000`. */
  lemma NegativeAgeProduct(p: real, b: real)
    requires b > 0.0 && 0.0 < p <= 1.0 - b / 500.0
    ensures p * (1.0 + b / 2000.0) <= 1.0
  {
    // p * (b/2000) <= b/2000, so p * (1 + b/2000) <= p + b/2000 <= 1 - 3b/2000
    MulNonNeg(1.0 - p, b / 2000.0);
    assert (1.0 - p) * (b / 2000.0) == b / 2000.0 - p * (b / 2000.0);
    assert p * (1.0 + b / 2000.0) == p + p * (b / 2000.0);
  }

  /** At a real (non-negative) distance the ring intensity never exceeds 1,
      even for a ripple whose age is negative. */
  lemma RingIntensityAtMostOne(rDist: real, age: real)
    requires rDist >= 0.0
    ensures RingIntensity(rDist, age) <= 1.0
  {
    var offset := RingOffset(rDist, age);
    if offset < WaveWidth {
      var profile := 1.0 - offset / WaveWidth;
      var decay := Max(0.0, 1.0 - age / Ttl);
      assert RingIntensity(rDist, age) == profile * decay;
      if age >= 0.0 {
        ProductAtMostOne(profile, decay);
      } else {
        // the ring has a negative radius, so the cell sits at least -age/5 off it
        NegativeAgeProduct(profile, -age);
      }
    }
  }

  /** Once the ring has passed the cell, the cell only fades: an older
      ripple is never brighter there. */
  lemma RingDecaysAfterPass(rDist: real, a1: real, a2: real)
    requires 0.0 <= rDist <= a1 * WaveSpeed && a1 <= a2
    ensures RingIntensity(rDist, a2) <= RingIntensity(rDist, a1)
  {
    var o1 := RingOffset(rDist, a1);
    var o2 := RingOffset(rDist, a2);
    assert o1 == a1 * WaveSpeed - rDist && o2 == a2 * WaveSpeed - rDist;
    if o2 < WaveWidth {
      var p1 := 1.0 - o1 / WaveWidth;
      var p2 := 1.0 - o2 / WaveWidth;
      var d1 := Max(0.0, 1.0 - a1 / Ttl);
      var d2 := Max(0.0, 1.0 - a2 / Ttl);
      assert RingIntensity(rDist, a1) == p1 * d1;
      assert RingIntensity(rDist, a2) == p2 * d2;
      // p1 * d1 - p2 * d2 == (p1 - p2) * d1 + p2 * (d1 - d2)
      MulNonNeg(p1 - p2, d1);
      MulNonNeg(p2, d1 - d2);
      assert (p1 - p2) * d1 + p2 * (d1 - d2) == p1 * d1 - p2 * d2;
    }
  }

  lemma MulPos(a: real, b: real)
    requires a > 0.0 && b > 0.0
    ensures a * b > 0.0
  {
  }

  /** Multiplying by a positive factor keeps strict order. */
  lemma ScaledLt(x: real, y: real, a: real, b: real, d: real)
    requires x == a * d && y == b * d
    requires d > 0.0 && a < b
    ensures x < y
  {
    MulPos(b - a, d);
    assert (b - a) * d == b * d - a * d;
  }

  /** The profile across the ring: a cell on the ring of a young ripple
      gets the full decay factor `1 - age/2000`, and at a fixed age the
      intensity strictly falls as the cell lies further off the ring. */
  lemma RingProfile(r1: real, r2: real, age: real)
    requires 0.0 <= age < Ttl
    ensures RingIntensity(age * WaveSpeed, age) == 1.0 - age / Ttl
    ensures RingOffset(r1, age) < RingOffset(r2, age) < WaveWidth ==>
              RingIntensity(r2, age) < RingIntensity(r1, age)
  {
    var d := 1.0 - age / Ttl;
    assert Max(0.0, d) == d;
    var o1 := RingOffset(r1, age);
    var o2 := RingOffset(r2, age);
    if o1 < o2 < WaveWidth {
      var p1 := 1.0 - o1 / WaveWidth;
      var p2 := 1.0 - o2 / WaveWidth;
      ScaledLt(RingIntensity(r2, age), RingIntensity(r1, age), p2, p1, d);
    }
  }

  /** Ring intensity of one stored ripple at frame time `time`. */
  function Wave(r: Ripple, rDist: Ripple -> real, time: real): real {
    RingIntensity(rDist(r), Age(r, time))
  }

  /** A ripple is visible on the cell when its ring intensity passes the
      threshold. */
  predicate Visible(r: Ripple, rDist: Ripple -> real, time: real) {
    Wave(r, rDist, time) > Threshold
  }

  /** Scale a visible ripple of intensity `w` asks for. */
  function RippleScale(w: real): real {
    BaseScale + w * RippleBump
  }

  /** One ripple applied to the cell: a visible ripple overwrites fill and
      stroke with purple and raises the scale; any other leaves it alone. */
  function RippleStep(st: Style, r: Ripple, rDist: Ripple -> real, time: real): (st': Style)
    ensures st'.scale >= st.scale
    ensures !Visible(r, rDist, time) ==> st' == st
    ensures Visible(r, rDist, time) ==>
              && st'.fill.Purple? && st'.stroke.Purple?
              && st'.scale >= RippleScale(Wave(r, rDist, time))
              && (st'.scale == st.scale || st'.scale == RippleScale(Wave(r, rDist, time)))
  {
    var w := Wave(r, rDist, time);
    if w > Threshold then
      Style(Purple(w * 0.3), Purple(w * 0.8), Max(st.scale, RippleScale(w)))
    else
      st
  }

  /** Ripples applied in store order, oldest first. */
  function ApplyRipples(st: Style, ripples: seq<Ripple>, rDist: Ripple -> real, time: real): (st': Style)
    ensures st'.scale >= st.scale
    ensures (forall i :: 0 <= i < |ripples| ==> !Visible(ripples[i], rDist, time)) ==> st' == st
    decreases |ripples|
  {
    if |ripples| == 0 then st
    else
      RippleStep(ApplyRipples(st, ripples[..|ripples| - 1], rDist, time),
                 ripples[|ripples| - 1], rDist, time)
  }

  /** The style of one cell in a frame. */
  function CellStyle(pointerDist: real, ripples: seq<Ripple>, rDist: Ripple -> real, time: real): (st: Style)
    ensures st.scale >= PointerStyle(pointerDist).scale
    ensures (forall i :: 0 <= i < |ripples| ==> !Visible(ripples[i], rDist, time)) ==>
              st == PointerStyle(pointerDist)
  {
    ApplyRipples(PointerStyle(pointerDist), ripples, rDist, time)
  }

  /** The final scale is the largest of the incoming scale and the scales of
      the visible ripples. */
  lemma {:induction false} FinalScaleIsMax(st: Style, ripples: seq<Ripple>, rDist: Ripple -> real, time: real)
    ensures forall i :: 0 <= i < |ripples| && Visible(ripples[i], rDist, time) ==>
              ApplyRipples(st, ripples, rDist, time).scale >= RippleScale(Wave(ripples[i], rDist, time))
    ensures || ApplyRipples(st, ripples, rDist, time).scale == st.scale
            || exists i :: 0 <= i < |ripples| && Visible(ripples[i], rDist, time) &&
                 ApplyRipples(st, ripples, rDist, time).scale == RippleScale(Wave(ripples[i], rDist, time))
    decreases |ripples|
  {
    if |ripples| > 0 {
      var n := |ripples| - 1;
      var init := ripples[..n];
      var prev := ApplyRipples(st, init, rDist, time);
      var fin := ApplyRipples(st, ripples, rDist, time);
      FinalScaleIsMax(st, init, rDist, time);
      assert fin == RippleStep(prev, ripples[n], rDist, time);
      forall i | 0 <= i < |ripples| && Visible(ripples[i], rDist, time)
        ensures fin.scale >= RippleScale(Wave(ripples[i], rDist, time))
      {
        if i < n {
          assert ripples[i] == init[i];
        }
      }
      if fin.scale != st.scale {
        if fin.scale == prev.scale {
          var i :| 0 <= i < |init| && Visible(init[i], rDist, time) &&
                   prev.scale == RippleScale(Wave(init[i], rDist, time));
          assert ripples[i] == init[i];
        } else {
          assert Visible(ripples[n], rDist, time);
        }
      }
    }
  }

  /** The final fill and stroke are those of the last visible ripple. */
  lemma {:induction false} LastVisibleRippleWins(st: Style, ripples: seq<Ripple>, rDist: Ripple -> real, time: real, i: nat)
    requires i < |ripples| && Visible(ripples[i], rDist, time)
    requires forall j :: i < j < |ripples| ==> !Visible(ripples[j], rDist, time)
    ensures ApplyRipples(st, ripples, rDist, time).fill == Purple(Wave(ripples[i], rDist, time) * 0.3)
    ensures ApplyRipples(st, ripples, rDist, time).stroke == Purple(Wave(ripples[i], rDist, time) * 0.8)
    decreases |ripples|
  {
    var n := |ripples| - 1;
    if i < n {
      var init := ripples[..n];
      assert init[i] == ripples[i];
      LastVisibleRippleWins(st, init, rDist, time, i);
    }
  }

  /** On a cell, the last visible ripple in store order sets fill and stroke,
      whatever the pointer did, and every visible ripple lifts the scale to at
      least its own ripple scale. */
  lemma CellRipplesWin(pointerDist: real, ripples: seq<Ripple>, rDist: Ripple -> real, time: real, i: nat)
    requires i < |ripples| && Visible(ripples[i], rDist, time)
    requires forall j :: i < j < |ripples| ==> !Visible(ripples[j], rDist, time)
    ensures CellStyle(pointerDist, ripples, rDist, time).fill == Purple(Wave(ripples[i], rDist, time) * 0.3)
    ensures CellStyle(pointerDist, ripples, rDist, time).stroke == Purple(Wave(ripples[i], rDist, time) * 0.8)
    ensures forall k :: 0 <= k < |ripples| && Visible(ripples[k], rDist, time) ==>
              CellStyle(pointerDist, ripples, rDist, time).scale >= RippleScale(Wave(ripples[k], rDist, time))
  {
    LastVisibleRippleWins(PointerStyle(pointerDist), ripples, rDist, time, i);
    FinalScaleIsMax(PointerStyle(pointerDist), ripples, rDist, time);
  }

  /** With the pointer at a real distance and every ripple at a real
      distance, the scale of a cell stays within [0.9, 1.2]. */
  lemma CellScaleBounds(pointerDist: real, ripples: seq<Ripple>, rDist: Ripple -> real, time: real)
    requires pointerDist >= 0.0
    requires forall r :: r in ripples ==> rDist(r) >= 0.0
    ensures BaseScale <= CellStyle(pointerDist, ripples, rDist, time).scale <= BaseScale + RippleBump
  {
    var st := PointerStyle(pointerDist);
    FinalScaleIsMax(st, ripples, rDist, time);
    var fin := CellStyle(pointerDist, ripples, rDist, time);
    if fin.scale != st.scale {
      var i :| 0 <= i < |ripples| && Visible(ripples[i], rDist, time) &&
               fin.scale == RippleScale(Wave(ripples[i], rDist, time));
      RingIntensityAtMostOne(rDist(ripples[i]), Age(ripples[i], time));
    }
  }

  /** Expired ripples are invisible, so styling before or after the frame's
      cleanup gives the same cell. */
  lemma {:induction false} PruneKeepsStyle(st: Style, ripples: seq<Ripple>, rDist: Ripple -> real, time: real)
    ensures ApplyRipples(st, Prune(ripples, time), rDist, time) == ApplyRipples(st, ripples, rDist, time)
    decreases |ripples|
  {
    if |ripples| > 0 {
      var n := |ripples| - 1;
      var init := ripples[..n];
      var last := ripples[n];
      assert ripples == init + [last];
      PruneConcat(init, [last], time);
      PruneSingle(last, time);
      PruneKeepsStyle(st, init, rDist, time);
      var pruned := Prune(ripples, time);
      if Live(last, time) {
        assert pruned == Prune(init, time) + [last];
        assert pruned[..|pruned| - 1] == Prune(init, time);
      } else {
        assert pruned == Prune(init, time);
        assert !Visible(last, rDist, time);
      }
    }
  }

  /** Before any pointer event the pointer sits at the canvas origin, so the
      cell centred there is fully tinted although nothing has happened. */
  lemma SentinelTintsOrigin(rDist: Ripple -> real, time: real)
    ensures CellStyle(0.0, [], rDist, time) != Baseline
    ensures CellStyle(0.0, [], rDist, time).scale == BaseScale + PointerBump
  {
  }

  /** A cell out of the pointer's reach with no visible ripple keeps the
      baseline style. */
  lemma QuietCellIsBaseline(pointerDist: real, ripples: seq<Ripple>, rDist: Ripple -> real, time: real)
    requires pointerDist >= InfluenceRadius
    requires forall r :: r in ripples ==> !Visible(r, rDist, time)
    ensures CellStyle(pointerDist, ripples, rDist, time) == Baseline
  {
  }
}
