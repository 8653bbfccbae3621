/** Positions, bridges and the local rules by which a node and its bridges react to signals. */
module Dynamics {
  import opened Common

  datatype Vector3D = Vector3D(x: real, y: real, z: real)

  /**
   Distance is a parameter.  `dist` is the Euclidean norm of the difference; all that is used of
   it is below.  `finite` tells for which positions the computation stays finite; elsewhere the
   program throws.
   */
  datatype Metric = Metric(dist: (Vector3D, Vector3D) -> real, finite: (Vector3D, Vector3D) -> bool)
  {
    ghost predicate Valid() {
      && (forall p, q :: dist(p, q) >= 0.0)
      && (forall p, q :: dist(p, q) == dist(q, p))
      && (forall p: Vector3D, q: Vector3D :: RealAbs(q.z - p.z) <= dist(p, q))
      && (forall p, q :: finite(p, q) == finite(q, p))
    }
  }

  /** The square of the Euclidean distance. */
  function Squared(p: Vector3D, q: Vector3D): real {
    (p.x - q.x) * (p.x - q.x) + (p.y - q.y) * (p.y - q.y) + (p.z - q.z) * (p.z - q.z)
  }

  lemma {:induction false} SquareGrows(b: real, c: real)
    requires b >= 0.0 && c >= 0.0
    ensures b < c ==> b * b < c * c
  {
    if b < c {
      var d, s := c - b, c + b;
      assert d * s > 0.0 by {
        MulStrict(0.0, d, s);
      }
      assert d * s == c * c - b * b;
    }
  }

  lemma {:induction false} SquareOrder(a: real, b: real)
    requires b >= 0.0 && a * a <= b * b
    ensures RealAbs(a) <= b
  {
    var c := RealAbs(a);
    SquareNonNegative(a);
    SquareGrows(b, c);
  }

  lemma {:induction false} SquareNonNegative(a: real)
    ensures a * a >= 0.0
    ensures (-a) * (-a) == a * a
  {
  }

  lemma {:induction false} SquaredMeans(p: Vector3D, q: Vector3D)
    ensures Squared(p, q) == Squared(q, p)
    ensures (q.z - p.z) * (q.z - p.z) <= Squared(p, q)
  {
    var x, y, z := p.x - q.x, p.y - q.y, p.z - q.z;
    SquareNonNegative(x);
    SquareNonNegative(y);
    SquareNonNegative(z);
    assert q.x - p.x == -x && q.y - p.y == -y && q.z - p.z == -z;
  }

  /** The Euclidean distance, whatever it finds finite in both directions alike, is such a metric. */
  lemma {:induction false} EuclideanIsValid(metric: Metric)
    requires forall p, q :: metric.dist(p, q) >= 0.0
    requires forall p, q :: metric.dist(p, q) * metric.dist(p, q) == Squared(p, q)
    requires forall p, q :: metric.finite(p, q) == metric.finite(q, p)
    ensures metric.Valid()
  {
    hide Squared;
    forall p: Vector3D, q: Vector3D
      ensures metric.dist(p, q) == metric.dist(q, p) && RealAbs(q.z - p.z) <= metric.dist(p, q)
    {
      SquaredMeans(p, q);
      SquareOrder(metric.dist(p, q), metric.dist(q, p));
      SquareOrder(metric.dist(q, p), metric.dist(p, q));
      SquareOrder(q.z - p.z, metric.dist(p, q));
    }
  }

  function Manhattan(p: Vector3D, q: Vector3D): real {
    RealAbs(q.x - p.x) + RealAbs(q.y - p.y) + RealAbs(q.z - p.z)
  }

  /** The assumptions on a metric can be met. */
  lemma {:induction false} MetricExists()
    ensures exists metric: Metric :: metric.Valid()
  {
    var metric := Metric((p, q) => Manhattan(p, q), (p, q) => true);
    assert forall p, q :: metric.dist(p, q) == Manhattan(p, q) == Manhattan(q, p);
    assert metric.Valid();
  }

  const COINCIDENT: real := 0.000001

  function OrientationFactor(metric: Metric, from: Vector3D, to: Vector3D): real {
    var distance := metric.dist(from, to);
    if distance < COINCIDENT then 1.0 else 0.5 * (1.0 + (to.z - from.z) / distance)
  }

  lemma {:induction false} OrientationBounded(metric: Metric, from: Vector3D, to: Vector3D)
    requires metric.Valid()
    ensures 0.0 <= OrientationFactor(metric, from, to) <= 1.0
  {
    var d := metric.dist(from, to);
    if d >= COINCIDENT {
      var dz := to.z - from.z;
      assert -d <= dz <= d;
      QuotientBounded(dz, d);
    }
  }

  lemma {:induction false} QuotientBounded(a: real, d: real)
    requires d > 0.0 && -d <= a <= d
    ensures -1.0 <= a / d <= 1.0
  {
    assert a / d <= 1.0;
    assert (-a) / d <= 1.0;
    assert (-a) / d == -(a / d);
  }

  /** The two directions of a new bridge weigh the same exactly when the nodes are level or
      coincide: the documented assumption of symmetric weights fails for every other pair. */
  lemma {:induction false} OrientationSymmetricIff(metric: Metric, p: Vector3D, q: Vector3D)
    requires metric.Valid()
    ensures OrientationFactor(metric, p, q) == OrientationFactor(metric, q, p)
       <==> metric.dist(p, q) < COINCIDENT || p.z == q.z
  {
    var d := metric.dist(p, q);
    assert metric.dist(q, p) == d;
    if d >= COINCIDENT {
      var up, down := (q.z - p.z) / d, (p.z - q.z) / d;
      assert up * d == q.z - p.z && down * d == p.z - q.z;
      assert up == down ==> up * d == down * d;
      assert p.z == q.z ==> up == 0.0 / d == down;
    }
  }

  /** A direction weighs more the more it rises: half when level, all when straight up, nothing when
      straight down; between coincident nodes, everything. */
  lemma {:induction false} OrientationMeans(metric: Metric, p: Vector3D, q: Vector3D)
    requires metric.Valid()
    ensures metric.dist(p, q) < 0.000001 ==> OrientationFactor(metric, p, q) == 1.0
    ensures metric.dist(p, q) >= 0.000001 ==>
      2.0 * OrientationFactor(metric, p, q) * metric.dist(p, q) == metric.dist(p, q) + (q.z - p.z)
  {
    var d := metric.dist(p, q);
    if d >= COINCIDENT {
      var share := (q.z - p.z) / d;
      assert share * d == q.z - p.z;
      assert 2.0 * OrientationFactor(metric, p, q) == 1.0 + share;
      assert (1.0 + share) * d == d + share * d;
    }
  }

  /** What one direction gains in weight the other loses. */
  lemma {:induction false} OrientationComplement(metric: Metric, p: Vector3D, q: Vector3D)
    requires metric.Valid()
    ensures OrientationFactor(metric, p, q) + OrientationFactor(metric, q, p)
         == if metric.dist(p, q) < COINCIDENT then 2.0 else 1.0
    ensures metric.dist(p, q) >= COINCIDENT ==> (OrientationFactor(metric, p, q) > 0.5 <==> q.z > p.z)
  {
    var d := metric.dist(p, q);
    assert metric.dist(q, p) == d;
    if d >= COINCIDENT {
      QuotientSign(q.z - p.z, d);
      assert p.z - q.z == -(q.z - p.z);
    }
  }

  lemma {:induction false} Cancel(x: real, y: real, d: real)
    requires d > 0.0
    ensures x * d == y * d <==> x == y
    ensures x * d < y * d <==> x < y
  {
    if x < y {
      MulStrict(x, y, d);
    } else if y < x {
      MulStrict(y, x, d);
    }
  }

  lemma {:induction false} QuotientSign(a: real, d: real)
    requires d > 0.0
    ensures a / d > 0.0 <==> a > 0.0
    ensures (-a) / d == -(a / d)
  {
    var r, t := a / d, (-a) / d;
    assert r * d == a && t * d == -a;
    assert (-r) * d == -(r * d);
    Cancel(0.0, r, d);
    Cancel(t, -r, d);
  }

  // ---------------------------------------------------------------- bridges

  datatype SignalCategory = Noise | CreativeSignal | DestructiveDrift

  datatype BridgeStatus = Normal | Damping | Recovery | Isolated

  datatype Bridge = Bridge(
    target: int,
    distance: real,
    orientation: real,
    capacity: real,
    status: BridgeStatus)

  datatype IdentityInvariant = IdentityInvariant(baseline: real, maxEpsilon: real)

  const MAX_EPSILON: real := 10.0
  const REFLEX_STEP: real := 3.5

  function UpdateBridge(bridge: Bridge, category: SignalCategory): Bridge {
    match category
    case Noise => bridge.(capacity := RealMax(0.01, bridge.capacity * 0.85), status := Damping)
    case CreativeSignal =>
      var capacity := RealMin(1.0, bridge.capacity + 0.15);
      bridge.(capacity := capacity, status := if capacity >= 0.9 then Normal else Recovery)
    case DestructiveDrift => bridge.(capacity := 0.0, status := Isolated)
  }

  /** The category of a candidate state, as the meta-evaluator decides it. */
  function Evaluate(candidate: real, health: real, omega: IdentityInvariant): SignalCategory {
    if !(RealAbs(candidate - omega.baseline) <= omega.maxEpsilon) then DestructiveDrift
    else if health > 0.7 && RealAbs(candidate - omega.baseline) > 1.2 then CreativeSignal
    else Noise
  }

  /** The copy of the rule inside the simulation loop, without the validation. */
  function EvaluateUnchecked(candidate: real, health: real, omega: IdentityInvariant): SignalCategory {
    var delta := RealAbs(candidate - omega.baseline);
    if delta > omega.maxEpsilon then DestructiveDrift
    else if health > 0.7 && delta > 1.2 then CreativeSignal
    else Noise
  }

  function Health(state: real, omega: IdentityInvariant): real
    requires omega.maxEpsilon > 0.0
  {
    RealMax(0.0, 1.0 - RealAbs(state - omega.baseline) / omega.maxEpsilon)
  }

  function EffectiveCoupling(bridge: Bridge): real
    requires bridge.distance >= 0.0
  {
    bridge.capacity * (1.0 / (1.0 + 0.1 * bridge.distance)) * bridge.orientation
  }

  /** The reflex filter clamps the step a raw input may cause. */
  function ReflexFilter(current: real, raw: real): real {
    var delta := raw - current;
    if RealAbs(delta) > REFLEX_STEP then current + (if delta > 0.0 then REFLEX_STEP else -REFLEX_STEP)
    else raw
  }

  predicate SoundBridge(bridge: Bridge) {
    && bridge.distance >= 0.0
    && 0.0 <= bridge.orientation <= 1.0
    && SoundCapacity(bridge.capacity)
  }

  /** A capacity is gone or at least 0.01: noise never takes one lower. */
  predicate SoundCapacity(capacity: real) {
    capacity == 0.0 || 0.01 <= capacity <= 1.0
  }

  /** Whatever signal arrives, a sound bridge stays sound and keeps its ends and geometry. */
  lemma {:induction false} UpdateBridgeSound(bridge: Bridge, category: SignalCategory)
    requires SoundBridge(bridge)
    ensures var next := UpdateBridge(bridge, category);
            && SoundBridge(next)
            && next.target == bridge.target
            && next.distance == bridge.distance
            && next.orientation == bridge.orientation
  {
  }

  lemma {:induction false} ProductInUnit(a: real, b: real)
    requires 0.0 <= a <= 1.0 && 0.0 <= b <= 1.0
    ensures 0.0 <= a * b <= 1.0
  {
    assert a * b >= 0.0 by {
      MulMonotone(0.0, a, b);
    }
    assert a * b <= b by {
      MulMonotone(a, 1.0, b);
    }
  }

  lemma {:induction false} CouplingInUnit(bridge: Bridge)
    requires SoundBridge(bridge)
    ensures 0.0 <= EffectiveCoupling(bridge) <= 1.0
  {
    var denominator := 1.0 + 0.1 * bridge.distance;
    var attenuation := 1.0 / denominator;
    assert 0.0 <= attenuation <= 1.0 by {
      QuotientBounded(1.0, denominator);
      assert attenuation * denominator == 1.0;
    }
    ProductInUnit(bridge.capacity, attenuation);
    ProductInUnit(bridge.capacity * attenuation, bridge.orientation);
  }

  /** The coupling is the product of capacity and orientation, halved at distance 10; it vanishes
      exactly when one of them does. */
  lemma {:induction false} CouplingMeans(bridge: Bridge)
    requires SoundBridge(bridge)
    ensures EffectiveCoupling(bridge) * (1.0 + 0.1 * bridge.distance) == bridge.capacity * bridge.orientation
    ensures EffectiveCoupling(bridge) == 0.0 <==> bridge.capacity == 0.0 || bridge.orientation == 0.0
  {
    var c, o, e := bridge.capacity, bridge.orientation, EffectiveCoupling(bridge);
    var denominator := 1.0 + 0.1 * bridge.distance;
    var attenuation := 1.0 / denominator;
    assert attenuation * denominator == 1.0;
    assert e == c * attenuation * o;
    assert (c * attenuation * o) * denominator == (c * o) * (attenuation * denominator);
    ProductZero(c, o);
    ProductZero(e, denominator);
  }

  lemma {:induction false} ProductZero(a: real, b: real)
    ensures a * b == 0.0 <==> a == 0.0 || b == 0.0
  {
  }

  /** The bridge after the same signal k times. */
  function Repeated(bridge: Bridge, category: SignalCategory, k: nat): Bridge {
    if k == 0 then bridge else UpdateBridge(Repeated(bridge, category, k - 1), category)
  }

  /** The capacity scaled by 0.85, k times over. */
  function Decayed(capacity: real, k: nat): real {
    if k == 0 then capacity else 0.85 * Decayed(capacity, k - 1)
  }

  /** Noise decays a bridge geometrically, down to 0.01; it never isolates it. */
  lemma {:induction false} RepeatedNoise(bridge: Bridge, k: nat)
    requires k > 0
    ensures Repeated(bridge, Noise, k).capacity == RealMax(0.01, Decayed(bridge.capacity, k))
    ensures Repeated(bridge, Noise, k).status == Damping
  {
    if k == 1 {
      assert Repeated(bridge, Noise, 0) == bridge && Decayed(bridge.capacity, 0) == bridge.capacity;
    } else {
      RepeatedNoise(bridge, k - 1);
    }
  }

  /** Creative signals rebuild a bridge by 0.15 each, up to 1; it counts as normal from 0.9 on, so
      an isolated bridge is normal again exactly from the sixth on. */
  lemma {:induction false} RepeatedCreative(bridge: Bridge, k: nat)
    requires bridge.capacity <= 1.0 && k > 0
    ensures var next := Repeated(bridge, CreativeSignal, k);
            && next.capacity == RealMin(1.0, bridge.capacity + 0.15 * (k as real))
            && next.status == (if next.capacity >= 0.9 then Normal else Recovery)
    ensures bridge.capacity == 0.0 ==> (Repeated(bridge, CreativeSignal, k).status == Normal <==> k >= 6)
  {
    if k == 1 {
      assert Repeated(bridge, CreativeSignal, 0) == bridge;
    } else {
      RepeatedCreative(bridge, k - 1);
      assert (k as real) == ((k - 1) as real) + 1.0;
    }
  }

  /** Health is full exactly at the baseline and gone exactly from the safety bound outwards;
      beyond the bound every signal is destructive. */
  lemma {:induction false} HealthMeans(state: real, omega: IdentityInvariant, health: real)
    requires omega.maxEpsilon > 0.0
    ensures 0.0 <= Health(state, omega) <= 1.0
    ensures Health(state, omega) == 1.0 <==> state == omega.baseline
    ensures Health(state, omega) == 0.0 <==> RealAbs(state - omega.baseline) >= omega.maxEpsilon
    ensures Evaluate(state, health, omega) == DestructiveDrift ==> Health(state, omega) == 0.0
  {
    var drift := RealAbs(state - omega.baseline);
    var share := drift / omega.maxEpsilon;
    assert share * omega.maxEpsilon == drift;
    Cancel(share, 1.0, omega.maxEpsilon);
    Cancel(0.0, share, omega.maxEpsilon);
    Cancel(share, 0.0, omega.maxEpsilon);
    assert 1.0 * omega.maxEpsilon == omega.maxEpsilon && 0.0 * omega.maxEpsilon == 0.0;
    assert share < 1.0 <==> drift < omega.maxEpsilon;
    assert share == 0.0 <==> drift == 0.0;
    assert share >= 0.0;
  }

  /** In between it falls in proportion to the drift. */
  lemma {:induction false} HealthIs(state: real, omega: IdentityInvariant)
    requires omega.maxEpsilon > 0.0
    ensures var drift := if state >= omega.baseline then state - omega.baseline else omega.baseline - state;
            Health(state, omega) == if drift >= omega.maxEpsilon then 0.0 else 1.0 - drift / omega.maxEpsilon
  {
    var drift := if state >= omega.baseline then state - omega.baseline else omega.baseline - state;
    assert RealAbs(state - omega.baseline) == drift;
    ShareBelowOne(drift, omega.maxEpsilon);
  }

  lemma {:induction false} ShareBelowOne(a: real, d: real)
    requires d > 0.0
    ensures a / d < 1.0 <==> a < d
  {
    var share := a / d;
    assert share * d == a;
    Cancel(share, 1.0, d);
  }

  /** An input within the step passes; any other moves the state by exactly the step, its way. */
  lemma {:induction false} ReflexBounded(current: real, raw: real)
    ensures RealAbs(ReflexFilter(current, raw) - current) == RealMin(REFLEX_STEP, RealAbs(raw - current))
    ensures RealAbs(raw - current) <= REFLEX_STEP ==> ReflexFilter(current, raw) == raw
    ensures ReflexFilter(current, raw) > current <==> raw > current
  {
  }
}
