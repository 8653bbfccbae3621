/**
 The two weights of one pair under the signals of its ends.  A weight is a capacity times a gain
 that never changes; from equal weights, exactly which signals lead to equal weights again.
 */
module Weights {
  import opened Common
  import opened Dynamics

  /** What geometry makes of a capacity: attenuation times orientation. */
  function Gain(bridge: Bridge): real
    requires bridge.distance >= 0.0
  {
    (1.0 / (1.0 + 0.1 * bridge.distance)) * bridge.orientation
  }

  lemma {:induction false} CouplingIsGain(bridge: Bridge)
    requires SoundBridge(bridge)
    ensures EffectiveCoupling(bridge) == bridge.capacity * Gain(bridge)
    ensures Gain(bridge) >= 0.0
    ensures Gain(bridge) == 0.0 <==> bridge.orientation == 0.0
  {
    var attenuation := 1.0 / (1.0 + 0.1 * bridge.distance);
    assert attenuation * (1.0 + 0.1 * bridge.distance) == 1.0;
    Cancel(0.0, attenuation, 1.0 + 0.1 * bridge.distance);
    assert attenuation > 0.0;
    MulMonotone(0.0, bridge.orientation, attenuation);
    ProductZero(attenuation, bridge.orientation);
    CouplingMeans(bridge);
    hide EffectiveCoupling;
    var denominator := 1.0 + 0.1 * bridge.distance;
    Associate(bridge.orientation, attenuation, denominator);
    assert Gain(bridge) * denominator == bridge.orientation;
    Associate(bridge.capacity, Gain(bridge), denominator);
    Cancel(EffectiveCoupling(bridge), bridge.capacity * Gain(bridge), denominator);
  }

  lemma {:induction false} Associate(a: real, b: real, c: real)
    ensures a * b * c == a * (b * c)
  {
  }

  /** At equal distances equal gains are equal orientations. */
  lemma {:induction false} GainsByOrientation(b: Bridge, c: Bridge)
    requires SoundBridge(b) && SoundBridge(c) && b.distance == c.distance
    ensures Gain(b) == Gain(c) <==> b.orientation == c.orientation
  {
    var attenuation := 1.0 / (1.0 + 0.1 * b.distance);
    assert attenuation * (1.0 + 0.1 * b.distance) == 1.0;
    Cancel(0.0, attenuation, 1.0 + 0.1 * b.distance);
    assert attenuation > 0.0;
    Cancel(b.orientation, c.orientation, attenuation);
  }

  /** What a signal makes of a capacity. */
  function After(capacity: real, signal: SignalCategory): real {
    match signal
    case Noise => RealMax(0.01, 0.85 * capacity)
    case CreativeSignal => RealMin(1.0, capacity + 0.15)
    case DestructiveDrift => 0.0
  }

  // ---------------------------------------------------------------- open in both directions

  /** Signals that keep c * g == d * h for gains g and h above zero and capacities c and d that are
      both gone or both at least 0.01. */
  predicate OpenLasting(c: real, g: real, d: real, h: real, one: SignalCategory, other: SignalCategory) {
    if c == 0.0 then
      || (one == other && (one == DestructiveDrift || g == h))
      || (one == Noise && other == CreativeSignal && g == 15.0 * h)
      || (one == CreativeSignal && other == Noise && h == 15.0 * g)
    else
      || (one == other && (one == DestructiveDrift || g == h))
      || (one == Noise && other == Noise && 0.85 * c >= 0.01 && 0.85 * d >= 0.01)
      || (one == Noise && other == CreativeSignal && c == 0.01 && d == 1.0)
      || (one == CreativeSignal && other == Noise && c == 1.0 && d == 0.01)
  }

  lemma {:induction false} Scale(k: real, c: real, g: real)
    ensures (k * c) * g == k * (c * g)
  {
  }

  /** Equal products of positive factors: the factors are equal together, and ordered oppositely. */
  lemma {:induction false} EqualProducts(c: real, g: real, d: real, h: real)
    requires c > 0.0 && g > 0.0 && d > 0.0 && h > 0.0 && c * g == d * h
    ensures c < d <==> h < g
    ensures c == d <==> g == h
  {
    if c < d {
      MulStrict(c, d, g);
      assert d * h == h * d && d * g == g * d;
      Cancel(h, g, d);
    } else if d < c {
      MulStrict(d, c, h);
      assert c * h == h * c && c * g == g * c;
      Cancel(g, h, c);
    } else {
      assert c * g == g * c && c * h == h * c;
      Cancel(g, h, c);
    }
  }

  lemma {:induction false} NoiseNoise(c: real, g: real, d: real, h: real)
    requires c > 0.0 && g > 0.0 && d > 0.0 && h > 0.0 && c * g == d * h
    ensures After(c, Noise) * g == After(d, Noise) * h <==> g == h || (0.85 * c >= 0.01 && 0.85 * d >= 0.01)
  {
    EqualProducts(c, g, d, h);
    Scale(0.85, c, g);
    Scale(0.85, d, h);
    if 0.85 * c < 0.01 {
      MulStrict(0.85 * c, 0.01, g);
    }
    if 0.85 * d < 0.01 {
      MulStrict(0.85 * d, 0.01, h);
    }
  }

  /** A weight raised by 0.15 of its gain, or to the gain itself. */
  predicate Raised(weight: real, gain: real, capped: bool, raised: real) {
    if capped then raised == gain < weight + 0.15 * gain else raised == weight + 0.15 * gain
  }

  lemma {:induction false} Risen(c: real, g: real)
    requires 0.0 < c <= 1.0 && g > 0.0
    ensures Raised(c * g, g, c + 0.15 > 1.0, After(c, CreativeSignal) * g)
  {
    assert (c + 0.15) * g == c * g + 0.15 * g;
    if c + 0.15 > 1.0 {
      MulStrict(1.0, c + 0.15, g);
      assert 1.0 * g == g;
    }
  }

  /** Of two capacities under equal weights the smaller gains more weight from a creative signal. */
  lemma {:induction false} SmallerRisesMore(c: real, g: real, d: real, h: real)
    requires 0.0 < c < d <= 1.0 && g > 0.0 && h > 0.0 && c * g == d * h
    ensures After(c, CreativeSignal) * g > After(d, CreativeSignal) * h
  {
    EqualProducts(c, g, d, h);
    hide After, Raised;
    Risen(c, g);
    Risen(d, h);
    Rising(c * g, g, h, After(c, CreativeSignal) * g, After(d, CreativeSignal) * h, c + 0.15 > 1.0, d + 0.15 > 1.0);
  }

  lemma {:induction false} Rising(weight: real, g: real, h: real, x: real, y: real, first: bool, second: bool)
    requires h < g && (first ==> second)
    requires Raised(weight, g, first, x) && Raised(weight, h, second, y)
    ensures x > y
  {
  }

  lemma {:induction false} CreativeCreative(c: real, g: real, d: real, h: real)
    requires 0.0 < c <= 1.0 && g > 0.0 && 0.0 < d <= 1.0 && h > 0.0 && c * g == d * h
    ensures After(c, CreativeSignal) * g == After(d, CreativeSignal) * h <==> g == h
  {
    EqualProducts(c, g, d, h);
    if c < d {
      SmallerRisesMore(c, g, d, h);
    } else if d < c {
      SmallerRisesMore(d, h, c, g);
    }
  }

  lemma {:induction false} NoiseCreative(c: real, g: real, d: real, h: real)
    requires 0.01 <= c <= 1.0 && g > 0.0 && 0.01 <= d <= 1.0 && h > 0.0 && c * g == d * h
    ensures After(c, Noise) * g == After(d, CreativeSignal) * h <==> c == 0.01 && d == 1.0
  {
    var x, y := After(c, Noise), After(d, CreativeSignal);
    assert x <= c && (x == c <==> c == 0.01);
    assert d <= y && (y == d <==> d == 1.0);
    hide After;
    Ordered(x, c, g);
    Ordered(d, y, h);
  }

  lemma {:induction false} Ordered(x: real, y: real, g: real)
    requires x <= y && g > 0.0
    ensures x * g <= y * g && (x * g == y * g <==> x == y)
  {
    if x < y {
      MulStrict(x, y, g);
    }
  }

  lemma {:induction false} GoneOpen(g: real, h: real, one: SignalCategory, other: SignalCategory)
    requires g > 0.0 && h > 0.0
    ensures After(0.0, one) * g == After(0.0, other) * h <==> OpenLasting(0.0, g, 0.0, h, one, other)
  {
  }

  lemma {:induction false} DriftOpen(c: real, g: real, d: real, h: real, one: SignalCategory, other: SignalCategory)
    requires SoundCapacity(c) && SoundCapacity(d) && g > 0.0 && h > 0.0
    requires one == DestructiveDrift || other == DestructiveDrift
    ensures After(c, one) * g == After(d, other) * h <==> one == other
  {
    ProductZero(After(c, one), g);
    ProductZero(After(d, other), h);
    assert 0.0 * g == 0.0 && 0.0 * h == 0.0;
  }

  lemma {:induction false} BothOpen(c: real, g: real, d: real, h: real, one: SignalCategory, other: SignalCategory)
    requires SoundCapacity(c) && SoundCapacity(d) && g > 0.0 && h > 0.0 && c * g == d * h
    ensures After(c, one) * g == After(d, other) * h <==> OpenLasting(c, g, d, h, one, other)
  {
    hide After;
    ProductZero(c, g);
    ProductZero(d, h);
    if c == 0.0 {
      hide OpenLasting;
      GoneOpen(g, h, one, other);
    } else if one == DestructiveDrift || other == DestructiveDrift {
      DriftOpen(c, g, d, h, one, other);
    } else {
      match (one, other) {
        case (Noise, Noise) => NoiseNoise(c, g, d, h);
        case (CreativeSignal, CreativeSignal) => CreativeCreative(c, g, d, h);
        case (Noise, CreativeSignal) => NoiseCreative(c, g, d, h);
        case (CreativeSignal, Noise) => NoiseCreative(d, h, c, g);
      }
    }
  }

  // ---------------------------------------------------------------- bridges

  /** Signals that keep the weights of a pair equal, told from the bridges before them.  A direction
      that is shut weighs nothing, and then the other must be gone and stay so. */
  predicate Lasting(b: Bridge, c: Bridge, one: SignalCategory, other: SignalCategory)
    requires b.distance >= 0.0 && c.distance >= 0.0
  {
    if Gain(b) == 0.0 || Gain(c) == 0.0 then
      (Gain(b) == 0.0 || one == DestructiveDrift) && (Gain(c) == 0.0 || other == DestructiveDrift)
    else OpenLasting(b.capacity, Gain(b), c.capacity, Gain(c), one, other)
  }

  lemma {:induction false} UpdatedCoupling(bridge: Bridge, signal: SignalCategory)
    requires SoundBridge(bridge)
    ensures SoundBridge(UpdateBridge(bridge, signal))
    ensures EffectiveCoupling(UpdateBridge(bridge, signal)) == After(bridge.capacity, signal) * Gain(bridge)
  {
    UpdateBridgeSound(bridge, signal);
    CouplingIsGain(UpdateBridge(bridge, signal));
    hide EffectiveCoupling, Gain;
    assert 0.85 * bridge.capacity == bridge.capacity * 0.85;
  }

  lemma {:induction false} ShutLasts(capacity: real, gain: real, signal: SignalCategory)
    requires SoundCapacity(capacity) && gain >= 0.0 && capacity * gain == 0.0
    ensures After(capacity, signal) * gain >= 0.0
    ensures After(capacity, signal) * gain == 0.0 <==> gain == 0.0 || signal == DestructiveDrift
  {
    ProductZero(After(capacity, signal), gain);
    MulMonotone(0.0, After(capacity, signal), gain);
  }

  lemma {:induction false} ProductsLastIff(c: real, g: real, d: real, h: real, one: SignalCategory,
                                           other: SignalCategory)
    requires SoundCapacity(c) && SoundCapacity(d) && g >= 0.0 && h >= 0.0 && c * g == d * h
    ensures After(c, one) * g == After(d, other) * h <==>
      if g == 0.0 || h == 0.0 then (g == 0.0 || one == DestructiveDrift) && (h == 0.0 || other == DestructiveDrift)
      else OpenLasting(c, g, d, h, one, other)
  {
    hide After, OpenLasting;
    if g == 0.0 {
      ShutPair(c, g, d, h, one, other);
    } else if h == 0.0 {
      ShutPair(d, h, c, g, other, one);
    } else {
      BothOpen(c, g, d, h, one, other);
    }
  }

  /** From equal weights, the weights after the signals are equal exactly when the signals last. */
  lemma {:induction false} WeightsLastIff(b: Bridge, c: Bridge, one: SignalCategory, other: SignalCategory)
    requires SoundBridge(b) && SoundBridge(c) && EffectiveCoupling(b) == EffectiveCoupling(c)
    ensures EffectiveCoupling(UpdateBridge(b, one)) == EffectiveCoupling(UpdateBridge(c, other)) <==>
      Lasting(b, c, one, other)
  {
    hide EffectiveCoupling, UpdateBridge, After, OpenLasting, Gain;
    CouplingIsGain(b);
    CouplingIsGain(c);
    UpdatedCoupling(b, one);
    UpdatedCoupling(c, other);
    ProductsLastIff(b.capacity, Gain(b), c.capacity, Gain(c), one, other);
  }

  lemma {:induction false} ShutPair(c: real, g: real, d: real, h: real, one: SignalCategory, other: SignalCategory)
    requires SoundCapacity(c) && SoundCapacity(d) && g == 0.0 && h >= 0.0 && c * g == d * h
    ensures After(c, one) * g == After(d, other) * h <==> h == 0.0 || other == DestructiveDrift
  {
    assert c * g == 0.0 && After(c, one) * g == 0.0;
    ShutLasts(d, h, other);
  }

  /** For directions of the same capacity and geometry that are open, it takes the same signal. */
  lemma {:induction false} MirroredLasting(b: Bridge, c: Bridge, one: SignalCategory, other: SignalCategory)
    requires SoundBridge(b) && SoundBridge(c)
    requires b.capacity == c.capacity && b.distance == c.distance && b.orientation == c.orientation > 0.0
    ensures EffectiveCoupling(b) == EffectiveCoupling(c)
    ensures Lasting(b, c, one, other) <==> one == other
  {
    CouplingIsGain(b);
    CouplingIsGain(c);
    GainsByOrientation(b, c);
    hide EffectiveCoupling, Gain;
  }
}
