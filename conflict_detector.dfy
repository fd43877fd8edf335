/**
 * The conflict detector of the analysis process (Computer.cpp, repeated as
 * member functions of `Computer` in Computer.h): the current-violation box
 * test, the two first-time solvers, the combined prediction within the
 * 120-second horizon, and the per-pair alert policy of `checkAircraftPair`.
 *
 * Doubles are reals.  `sqrt` is the caller's square-root function, of which
 * only the defining laws are assumed (`IsSqrt`); the infinity that initialises
 * the horizontal time is the `Inf` case of `Ext`.
 */
module ConflictDetector {
  import opened Wrappers
  import opened AircraftModel
  import opened Alerts

  const HorizontalThreshold: real := 3000.0
  const VerticalThreshold: real := 1000.0
  const MaxTime: real := 120.0

  function Abs(x: real): real {
    if x < 0.0 then -x else x
  }

  /** The laws of the square root the detector relies on. */
  ghost predicate IsSqrt(sqrt: real -> real) {
    forall x :: 0.0 <= x ==> 0.0 <= sqrt(x) && sqrt(x) * sqrt(x) == x
  }

  /** A double that is either finite or +infinity. */
  datatype Ext = Fin(t: real) | Inf

  /** `std::max` on such doubles. */
  function MaxExt(a: Ext, b: Ext): Ext {
    match (a, b)
    case (Fin(x), Fin(y)) => if x < y then Fin(y) else Fin(x)
    case _ => Inf
  }

  // ---------------------------------------------------------------- violation

  /** `violationCheck`: within 3000 ft on the x or on the y axis, and within 1000 ft vertically. */
  predicate ViolationCheck(a1: AircraftState, a2: AircraftState) {
    var dx := Abs(a1.positionX - a2.positionX);
    var dy := Abs(a1.positionY - a2.positionY);
    var dz := Abs(a1.positionZ - a2.positionZ);
    (dx < HorizontalThreshold || dy < HorizontalThreshold) && dz < VerticalThreshold
  }

  /** The test does not depend on the order of the pair. */
  lemma ViolationSymmetric(a1: AircraftState, a2: AircraftState)
    ensures ViolationCheck(a1, a2) == ViolationCheck(a2, a1)
  {
  }

  /** The test reads positions only: velocities, IDs, times and flags play no part. */
  lemma ViolationIgnoresVelocity(a1: AircraftState, a2: AircraftState, b1: AircraftState, b2: AircraftState)
    requires a1.positionX == b1.positionX && a1.positionY == b1.positionY && a1.positionZ == b1.positionZ
    requires a2.positionX == b2.positionX && a2.positionY == b2.positionY && a2.positionZ == b2.positionZ
    ensures ViolationCheck(a1, a2) == ViolationCheck(b1, b2)
  {
  }

  /** The inequalities are strict: a pair exactly at a threshold is not in violation. */
  lemma ViolationStrictAtThresholds(a1: AircraftState, a2: AircraftState)
    requires (Abs(a1.positionX - a2.positionX) >= HorizontalThreshold && Abs(a1.positionY - a2.positionY) >= HorizontalThreshold)
           || Abs(a1.positionZ - a2.positionZ) >= VerticalThreshold
    ensures !ViolationCheck(a1, a2)
  {
  }

  // ---------------------------------------------------------------- solvers

  /** The value at `t` of the quadratic with coefficients `A`, `B`, `c`. */
  function Quadratic(A: real, B: real, c: real, t: real): real {
    A * t * t + B * t + c
  }

  lemma MulPositive(a: real, b: real)
    requires a > 0.0 && b > 0.0
    ensures a * b > 0.0
  {
  }

  lemma SquareMonotone(a: real, b: real)
    requires 0.0 <= a && 0.0 <= b
    ensures a <= b <==> a * a <= b * b
    ensures a < b <==> a * a < b * b
  {
    assert b * b - a * a == (b - a) * (b + a);
    if a < b {
      MulPositive(b - a, b + a);
    } else if b < a {
      MulPositive(a - b, a + b);
    }
  }

  lemma ProductZero(a: real, b: real)
    ensures a * b == 0.0 <==> a == 0.0 || b == 0.0
  {
    if a != 0.0 && b != 0.0 {
      if a > 0.0 && b > 0.0 { MulPositive(a, b); }
      else if a < 0.0 && b < 0.0 { MulPositive(-a, -b); }
      else if a > 0.0 { MulPositive(a, -b); }
      else { MulPositive(-a, b); }
    }
  }

  /** `2 A x + k` vanishes at one point only. */
  lemma HalvedRoot(A: real, k: real, x: real)
    requires A != 0.0
    ensures 2.0 * A * x + k == 0.0 <==> x == -k / (2.0 * A)
  {
    if x == -k / (2.0 * A) {
      assert 2.0 * A * x == -k;
    }
  }

  /** Completing the square: `4 A q(x) = (y - s) (y + s)` with `y = 2 A x + B`. */
  lemma CompletedSquare(A: real, B: real, c: real, s: real, x: real)
    requires s * s == B * B - 4.0 * A * c
    ensures 4.0 * A * Quadratic(A, B, c, x) == (2.0 * A * x + B - s) * (2.0 * A * x + B + s)
  {
    var y := 2.0 * A * x + B;
    assert (y - s) * (y + s) == y * y - s * s;
    assert y * y == 4.0 * A * A * x * x + 4.0 * A * B * x + B * B;
    assert 4.0 * A * Quadratic(A, B, c, x) == 4.0 * A * A * x * x + 4.0 * A * B * x + 4.0 * A * c;
  }

  /** With a square root `s` of the discriminant, `x` is a root exactly when it is one of the two textbook roots. */
  lemma QuadraticRootAt(A: real, B: real, c: real, s: real, x: real)
    requires A != 0.0 && 0.0 <= s && s * s == B * B - 4.0 * A * c
    ensures Quadratic(A, B, c, x) == 0.0 <==> x == (-B - s) / (2.0 * A) || x == (-B + s) / (2.0 * A)
  {
    CompletedSquare(A, B, c, s, x);
    ProductZero(4.0 * A, Quadratic(A, B, c, x));
    ProductZero(2.0 * A * x + B - s, 2.0 * A * x + B + s);
    HalvedRoot(A, B - s, x);
    HalvedRoot(A, B + s, x);
    assert -(B - s) == -B + s && -(B + s) == -B - s;
  }

  lemma QuadraticRoots(A: real, B: real, c: real, s: real)
    requires A != 0.0 && 0.0 <= s && s * s == B * B - 4.0 * A * c
    ensures forall x :: Quadratic(A, B, c, x) == 0.0 <==> x == (-B - s) / (2.0 * A) || x == (-B + s) / (2.0 * A)
    ensures A > 0.0 ==> (-B - s) / (2.0 * A) <= (-B + s) / (2.0 * A)
  {
    forall x ensures Quadratic(A, B, c, x) == 0.0 <==> x == (-B - s) / (2.0 * A) || x == (-B + s) / (2.0 * A) {
      QuadraticRootAt(A, B, c, s, x);
    }
  }

  /** With a negative discriminant the quadratic has no real root. */
  lemma QuadraticNoRoots(A: real, B: real, c: real)
    requires A != 0.0 && B * B - 4.0 * A * c < 0.0
    ensures forall x :: Quadratic(A, B, c, x) != 0.0
  {
    forall x ensures Quadratic(A, B, c, x) != 0.0 {
      var y := 2.0 * A * x + B;
      assert 4.0 * A * Quadratic(A, B, c, x) == y * y - (B * B - 4.0 * A * c);
      assert y * y >= 0.0;
      ProductZero(4.0 * A, Quadratic(A, B, c, x));
    }
  }

  /** The quadratic of `solveQuadraticFirstTime`: the constant term less the squared threshold. */
  function ThresholdQuadratic(A: real, B: real, C: real, R: real, t: real): real {
    Quadratic(A, B, C - R * R, t)
  }

  lemma ThresholdShift(A: real, B: real, C: real, R: real, t: real)
    ensures ThresholdQuadratic(A, B, C, R, t) == Quadratic(A, B, C, t) - R * R
  {
  }

  /**
   * `solveQuadraticFirstTime`: a non-negative root of A t^2 + B t + (C - R^2),
   * the earliest one when A > 0; none exactly when no such root exists.
   */
  function SolveQuadraticFirstTime(A: real, B: real, C: real, R: real, sqrt: real -> real): (t: Option<real>)
    requires A != 0.0
    requires IsSqrt(sqrt)
    ensures t.Some? ==> 0.0 <= t.value && ThresholdQuadratic(A, B, C, R, t.value) == 0.0
    ensures t.None? <==> forall s :: 0.0 <= s ==> ThresholdQuadratic(A, B, C, R, s) != 0.0
    ensures t.Some? && A > 0.0 ==>
              forall s :: 0.0 <= s && ThresholdQuadratic(A, B, C, R, s) == 0.0 ==> t.value <= s
  {
    var c := C - R * R;
    var discriminant := B * B - 4.0 * A * c;
    if discriminant < 0.0 then
      QuadraticNoRoots(A, B, c);
      None
    else
      var sqrtD := sqrt(discriminant);
      var t1 := (-B - sqrtD) / (2.0 * A);
      var t2 := (-B + sqrtD) / (2.0 * A);
      QuadraticRoots(A, B, c, sqrtD);
      if t1 >= 0.0 then Some(t1)
      else if t2 >= 0.0 then Some(t2)
      else None
  }

  /** The vertical separation after `t` seconds. */
  function Linear(dz0: real, dvz: real, t: real): real {
    dz0 + dvz * t
  }

  lemma LinearRoot(dz0: real, dvz: real, target: real, s: real)
    requires dvz != 0.0
    ensures Linear(dz0, dvz, s) == target <==> s == (target - dz0) / dvz
  {
  }

  /** The vertical separation `dz0 + dvz t` is exactly at the threshold R (above or below). */
  predicate AtVerticalThreshold(dz0: real, dvz: real, R: real, t: real) {
    Linear(dz0, dvz, t) == R || Linear(dz0, dvz, t) == -R
  }

  /**
   * `solveLinearFirstTime`.  Without vertical relative motion: time 0 when the
   * separation is within R (and then it stays within R for all time), else none.
   * Otherwise: the earliest non-negative time at which |dz0 + dvz t| = R, or
   * none exactly when there is no such time.
   */
  function SolveLinearFirstTime(dz0: real, dvz: real, R: real): (t: Option<real>)
    ensures dvz == 0.0 ==> t == (if Abs(dz0) <= R then Some(0.0) else None)
    ensures dvz == 0.0 ==> (t.Some? <==> forall s :: Abs(Linear(dz0, dvz, s)) <= R)
    ensures dvz != 0.0 && t.Some? ==> 0.0 <= t.value && AtVerticalThreshold(dz0, dvz, R, t.value)
    ensures dvz != 0.0 ==> (t.None? <==> forall s :: 0.0 <= s ==> !AtVerticalThreshold(dz0, dvz, R, s))
    ensures dvz != 0.0 && t.Some? ==>
              forall s :: 0.0 <= s && AtVerticalThreshold(dz0, dvz, R, s) ==> t.value <= s
  {
    if dvz == 0.0 then
      if Abs(dz0) <= R then
        assert forall s :: Linear(dz0, dvz, s) == dz0 by {
          forall s ensures Linear(dz0, dvz, s) == dz0 { assert dvz * s == 0.0; }
        }
        Some(0.0)
      else
        assert Abs(Linear(dz0, dvz, 0.0)) > R;
        None
    else
      var r1 := (R - dz0) / dvz;
      var r2 := (-R - dz0) / dvz;
      assert forall s :: AtVerticalThreshold(dz0, dvz, R, s) <==> s == r1 || s == r2 by {
        forall s ensures AtVerticalThreshold(dz0, dvz, R, s) <==> s == r1 || s == r2 {
          LinearRoot(dz0, dvz, R, s);
          LinearRoot(dz0, dvz, -R, s);
        }
      }
      var (t1, t2) := if r1 > r2 then (r2, r1) else (r1, r2);
      if t1 >= 0.0 then Some(t1)
      else if t2 >= 0.0 then Some(t2)
      else None
  }

  // ---------------------------------------------------------------- relative motion

  /** x and y offsets of `a1` from `a2` after both fly `t` seconds. */
  function OffsetXAt(a1: AircraftState, a2: AircraftState, t: real): real {
    Advance(a1, t).positionX - Advance(a2, t).positionX
  }

  function OffsetYAt(a1: AircraftState, a2: AircraftState, t: real): real {
    Advance(a1, t).positionY - Advance(a2, t).positionY
  }

  /** The vertical offset of `a1` from `a2` after both fly `t` seconds. */
  function OffsetZAt(a1: AircraftState, a2: AircraftState, t: real): real {
    Advance(a1, t).positionZ - Advance(a2, t).positionZ
  }

  /** Square of the horizontal distance of the pair after `t` seconds. */
  function HorizontalDistance2At(a1: AircraftState, a2: AircraftState, t: real): real {
    OffsetXAt(a1, a2, t) * OffsetXAt(a1, a2, t) + OffsetYAt(a1, a2, t) * OffsetYAt(a1, a2, t)
  }

  /** The coefficients `collisionCheck` computes from the relative position and speed. */
  function CoefficientA(a1: AircraftState, a2: AircraftState): real {
    var dvx := a1.speedX - a2.speedX;
    var dvy := a1.speedY - a2.speedY;
    dvx * dvx + dvy * dvy
  }

  function CoefficientB(a1: AircraftState, a2: AircraftState): real {
    var dx0 := a1.positionX - a2.positionX;
    var dy0 := a1.positionY - a2.positionY;
    2.0 * (dx0 * (a1.speedX - a2.speedX) + dy0 * (a1.speedY - a2.speedY))
  }

  function CoefficientC(a1: AircraftState, a2: AircraftState): real {
    var dx0 := a1.positionX - a2.positionX;
    var dy0 := a1.positionY - a2.positionY;
    dx0 * dx0 + dy0 * dy0
  }

  /** The offset of two linear motions is linear in time. */
  lemma OffsetOfLinear(p1: real, p2: real, v1: real, v2: real, t: real)
    ensures (p1 + v1 * t) - (p2 + v2 * t) == (p1 - p2) + (v1 - v2) * t
  {
  }

  /** The sum of two squared linear offsets, multiplied out. */
  lemma SquaredOffsets(ox: real, oy: real, dx0: real, dy0: real, dvx: real, dvy: real, t: real)
    requires ox == dx0 + dvx * t && oy == dy0 + dvy * t
    ensures Quadratic(dvx * dvx + dvy * dvy, 2.0 * (dx0 * dvx + dy0 * dvy), dx0 * dx0 + dy0 * dy0, t) == ox * ox + oy * oy
  {
    assert ox * ox == dvx * dvx * t * t + 2.0 * dx0 * dvx * t + dx0 * dx0;
    assert oy * oy == dvy * dvy * t * t + 2.0 * dy0 * dvy * t + dy0 * dy0;
  }

  /** The horizontal offsets after `t` seconds, as linear functions of `t`. */
  lemma OffsetsLinear(a1: AircraftState, a2: AircraftState, t: real)
    ensures OffsetXAt(a1, a2, t) == (a1.positionX - a2.positionX) + (a1.speedX - a2.speedX) * t
    ensures OffsetYAt(a1, a2, t) == (a1.positionY - a2.positionY) + (a1.speedY - a2.speedY) * t
  {
    OffsetOfLinear(a1.positionX, a2.positionX, a1.speedX, a2.speedX, t);
    OffsetOfLinear(a1.positionY, a2.positionY, a1.speedY, a2.speedY, t);
  }

  /** The quadratic of `collisionCheck` is the squared horizontal distance at time t. */
  lemma QuadraticIsHorizontalDistance(a1: AircraftState, a2: AircraftState, t: real)
    ensures Quadratic(CoefficientA(a1, a2), CoefficientB(a1, a2), CoefficientC(a1, a2), t)
            == HorizontalDistance2At(a1, a2, t)
  {
    var dx0, dy0 := a1.positionX - a2.positionX, a1.positionY - a2.positionY;
    var dvx, dvy := a1.speedX - a2.speedX, a1.speedY - a2.speedY;
    var A, B, c := dvx * dvx + dvy * dvy, 2.0 * (dx0 * dvx + dy0 * dvy), dx0 * dx0 + dy0 * dy0;
    assert CoefficientA(a1, a2) == A && CoefficientB(a1, a2) == B && CoefficientC(a1, a2) == c;
    var ox, oy := OffsetXAt(a1, a2, t), OffsetYAt(a1, a2, t);
    assert HorizontalDistance2At(a1, a2, t) == ox * ox + oy * oy;
    OffsetsLinear(a1, a2, t);
    SquaredOffsets(ox, oy, dx0, dy0, dvx, dvy, t);
  }

  /** A = 0 means no relative horizontal motion: the horizontal distance never changes. */
  lemma NoRelativeHorizontalMotion(a1: AircraftState, a2: AircraftState, t: real)
    requires CoefficientA(a1, a2) == 0.0
    ensures a1.speedX == a2.speedX && a1.speedY == a2.speedY
    ensures HorizontalDistance2At(a1, a2, t) == CoefficientC(a1, a2)
  {
    var dvx, dvy := a1.speedX - a2.speedX, a1.speedY - a2.speedY;
    SquareMonotone(0.0, Abs(dvx));
    SquareMonotone(0.0, Abs(dvy));
    assert Abs(dvx) * Abs(dvx) == dvx * dvx && Abs(dvy) * Abs(dvy) == dvy * dvy;
    QuadraticIsHorizontalDistance(a1, a2, t);
  }

  /** A square root is at most `bound` exactly when its square is at most `bound`^2. */
  lemma SqrtAtMost(x: real, s: real, bound: real)
    requires 0.0 <= bound && 0.0 <= s && s * s == x
    ensures s <= bound <==> x <= bound * bound
  {
    SquareMonotone(s, bound);
  }

  /**
   * The horizontal half of `collisionCheck`: `None` when `horizontalValid` is
   * false, else the value left in `t_h_first`.  With relative horizontal motion
   * it is the earliest non-negative time at which the pair is exactly 3000 ft
   * apart, and there is none exactly when that never happens; without it, the
   * time stays infinite and the pair is valid exactly when it is, and so always
   * stays, within 3000 ft.
   */
  function HorizontalFirstTime(a1: AircraftState, a2: AircraftState, sqrt: real -> real): (h: Option<Ext>)
    requires IsSqrt(sqrt)
    ensures CoefficientA(a1, a2) == 0.0 ==> h.None? || h == Some(Inf)
    ensures CoefficientA(a1, a2) != 0.0 ==> h.None? || h.value.Fin?
  {
    var A, B, C := CoefficientA(a1, a2), CoefficientB(a1, a2), CoefficientC(a1, a2);
    if A == 0.0 then
      if sqrt(C) <= HorizontalThreshold then Some(Inf) else None
    else
      match SolveQuadraticFirstTime(A, B, C, HorizontalThreshold, sqrt)
      case Some(t) => Some(Fin(t))
      case None => None
  }

  /** The quadratic the solver is given is the squared horizontal distance less 3000^2. */
  lemma HorizontalQuadratic(a1: AircraftState, a2: AircraftState)
    ensures forall s :: ThresholdQuadratic(CoefficientA(a1, a2), CoefficientB(a1, a2), CoefficientC(a1, a2), HorizontalThreshold, s)
                        == HorizontalDistance2At(a1, a2, s) - HorizontalThreshold * HorizontalThreshold
  {
    forall s ensures ThresholdQuadratic(CoefficientA(a1, a2), CoefficientB(a1, a2), CoefficientC(a1, a2), HorizontalThreshold, s)
                     == HorizontalDistance2At(a1, a2, s) - HorizontalThreshold * HorizontalThreshold {
      QuadraticIsHorizontalDistance(a1, a2, s);
    }
  }

  /**
   * Without relative horizontal motion the horizontal time is infinite exactly
   * when the pair is, and so stays, within 3000 ft; otherwise there is none.
   */
  lemma HorizontalFirstTimeStatic(a1: AircraftState, a2: AircraftState, sqrt: real -> real)
    requires IsSqrt(sqrt)
    requires CoefficientA(a1, a2) == 0.0
    ensures HorizontalFirstTime(a1, a2, sqrt) == Some(Inf) <==>
              forall s :: HorizontalDistance2At(a1, a2, s) <= HorizontalThreshold * HorizontalThreshold
  {
    var C := CoefficientC(a1, a2);
    forall s ensures HorizontalDistance2At(a1, a2, s) == C {
      NoRelativeHorizontalMotion(a1, a2, s);
    }
    var dx0, dy0 := a1.positionX - a2.positionX, a1.positionY - a2.positionY;
    assert C == dx0 * dx0 + dy0 * dy0;
    assert C >= 0.0;
    SqrtAtMost(C, sqrt(C), HorizontalThreshold);
    if forall s :: HorizontalDistance2At(a1, a2, s) <= HorizontalThreshold * HorizontalThreshold {
      assert HorizontalDistance2At(a1, a2, 0.0) <= HorizontalThreshold * HorizontalThreshold;
    }
  }

  /**
   * With relative horizontal motion the horizontal time is the earliest
   * non-negative time at which the pair is exactly 3000 ft apart, and there is
   * none exactly when that distance is never reached.
   */
  lemma HorizontalFirstTimeMoving(a1: AircraftState, a2: AircraftState, sqrt: real -> real)
    requires IsSqrt(sqrt)
    requires CoefficientA(a1, a2) != 0.0
    ensures var h := HorizontalFirstTime(a1, a2, sqrt);
            h.None? <==> forall s :: 0.0 <= s ==> HorizontalDistance2At(a1, a2, s) != HorizontalThreshold * HorizontalThreshold
    ensures var h := HorizontalFirstTime(a1, a2, sqrt);
            h.Some? ==> 0.0 <= h.value.t && HorizontalDistance2At(a1, a2, h.value.t) == HorizontalThreshold * HorizontalThreshold
    ensures var h := HorizontalFirstTime(a1, a2, sqrt);
            h.Some? ==> forall s :: 0.0 <= s && HorizontalDistance2At(a1, a2, s) == HorizontalThreshold * HorizontalThreshold ==> h.value.t <= s
  {
    var A := CoefficientA(a1, a2);
    var dvx, dvy := a1.speedX - a2.speedX, a1.speedY - a2.speedY;
    assert A == dvx * dvx + dvy * dvy;
    assert A > 0.0;
    HorizontalQuadratic(a1, a2);
  }

  /** The vertical half of `collisionCheck`: `solveLinearFirstTime` on the z offset and z speed. */
  function VerticalFirstTime(a1: AircraftState, a2: AircraftState): (v: Option<real>)
    ensures v.Some? ==> 0.0 <= v.value
  {
    SolveLinearFirstTime(a1.positionZ - a2.positionZ, a1.speedZ - a2.speedZ, VerticalThreshold)
  }

  /** The z offset moves linearly with the relative vertical speed. */
  lemma OffsetZIsLinear(a1: AircraftState, a2: AircraftState, s: real)
    ensures OffsetZAt(a1, a2, s) == Linear(a1.positionZ - a2.positionZ, a1.speedZ - a2.speedZ, s)
  {
    assert a1.speedZ * s - a2.speedZ * s == (a1.speedZ - a2.speedZ) * s;
  }

  /** Being exactly 1000 ft apart vertically is the solver's threshold test. */
  lemma AtThresholdIsOffset(a1: AircraftState, a2: AircraftState)
    ensures forall s :: Abs(OffsetZAt(a1, a2, s)) == VerticalThreshold <==>
              AtVerticalThreshold(a1.positionZ - a2.positionZ, a1.speedZ - a2.speedZ, VerticalThreshold, s)
  {
    forall s ensures Abs(OffsetZAt(a1, a2, s)) == VerticalThreshold <==>
              AtVerticalThreshold(a1.positionZ - a2.positionZ, a1.speedZ - a2.speedZ, VerticalThreshold, s) {
      OffsetZIsLinear(a1, a2, s);
    }
  }

  /**
   * Without relative vertical motion the vertical time is 0 exactly when the
   * pair is within 1000 ft forever, and none otherwise.
   */
  lemma VerticalFirstTimeStatic(a1: AircraftState, a2: AircraftState)
    requires a1.speedZ == a2.speedZ
    ensures VerticalFirstTime(a1, a2).Some? <==> forall s :: Abs(OffsetZAt(a1, a2, s)) <= VerticalThreshold
    ensures VerticalFirstTime(a1, a2).Some? ==> VerticalFirstTime(a1, a2).value == 0.0
  {
    var dz0, dvz := a1.positionZ - a2.positionZ, a1.speedZ - a2.speedZ;
    forall s ensures Abs(OffsetZAt(a1, a2, s)) == Abs(Linear(dz0, dvz, s)) {
      OffsetZIsLinear(a1, a2, s);
    }
  }

  /**
   * With relative vertical motion the vertical time is the earliest
   * non-negative time at which the pair is exactly 1000 ft apart vertically,
   * and none exactly when that never happens.
   */
  lemma VerticalFirstTimeMoving(a1: AircraftState, a2: AircraftState)
    requires a1.speedZ != a2.speedZ
    ensures var v := VerticalFirstTime(a1, a2);
            v.Some? ==> Abs(OffsetZAt(a1, a2, v.value)) == VerticalThreshold
    ensures var v := VerticalFirstTime(a1, a2);
            v.None? <==> forall s :: 0.0 <= s ==> Abs(OffsetZAt(a1, a2, s)) != VerticalThreshold
    ensures var v := VerticalFirstTime(a1, a2);
            v.Some? ==> forall s :: 0.0 <= s && Abs(OffsetZAt(a1, a2, s)) == VerticalThreshold ==> v.value <= s
  {
    AtThresholdIsOffset(a1, a2);
  }

  /**
   * `collisionCheck`: (true, t) with t = max of the horizontal and vertical
   * first times when both are found and that maximum is at most 120 s;
   * (false, -1) otherwise.
   */
  function CollisionCheck(a1: AircraftState, a2: AircraftState, sqrt: real -> real): (r: (bool, real))
    requires IsSqrt(sqrt)
    ensures !r.0 ==> r.1 == -1.0
    ensures r.0 ==> 0.0 <= r.1 <= MaxTime
    ensures r.0 <==>
              HorizontalFirstTime(a1, a2, sqrt).Some? && HorizontalFirstTime(a1, a2, sqrt).value.Fin? &&
              VerticalFirstTime(a1, a2).Some? &&
              HorizontalFirstTime(a1, a2, sqrt).value.t <= MaxTime && VerticalFirstTime(a1, a2).value <= MaxTime
    ensures r.0 ==> r.1 >= HorizontalFirstTime(a1, a2, sqrt).value.t && r.1 >= VerticalFirstTime(a1, a2).value
    ensures r.0 ==> r.1 == HorizontalFirstTime(a1, a2, sqrt).value.t || r.1 == VerticalFirstTime(a1, a2).value
  {
    var h := HorizontalFirstTime(a1, a2, sqrt);
    var v := VerticalFirstTime(a1, a2);
    if h.None? || v.None? then (false, -1.0)
    else
      match MaxExt(h.value, Fin(v.value))
      case Fin(t) => if t <= MaxTime then (true, t) else (false, -1.0)
      case Inf => (false, -1.0)
  }

  /** Pairs with no relative horizontal speed are never predicted to collide: the maximum stays infinite. */
  lemma NoPredictionWithoutHorizontalMotion(a1: AircraftState, a2: AircraftState, sqrt: real -> real)
    requires IsSqrt(sqrt)
    requires a1.speedX == a2.speedX && a1.speedY == a2.speedY
    ensures CollisionCheck(a1, a2, sqrt) == (false, -1.0)
  {
    assert CoefficientA(a1, a2) == 0.0;
  }

  /** Strictly between its two roots an upward quadratic is negative. */
  lemma NegativeBetweenRoots(A: real, B: real, c: real, s: real, x: real)
    requires A > 0.0 && 0.0 <= s && s * s == B * B - 4.0 * A * c
    requires (-B - s) / (2.0 * A) < x < (-B + s) / (2.0 * A)
    ensures Quadratic(A, B, c, x) < 0.0
  {
    var y := 2.0 * A * x + B;
    assert 4.0 * A * Quadratic(A, B, c, x) == (y - s) * (y + s);
    assert y - s < 0.0 && y + s > 0.0;
    MulPositive(s - y, y + s);
    if Quadratic(A, B, c, x) >= 0.0 {
      ProductZero(4.0 * A, Quadratic(A, B, c, x));
      if Quadratic(A, B, c, x) > 0.0 {
        MulPositive(4.0 * A, Quadratic(A, B, c, x));
      }
    }
  }

  /** With a negative constant term an upward quadratic has one root on each side of 0. */
  lemma RootsStraddleZero(A: real, B: real, c: real, s: real)
    requires A > 0.0 && c < 0.0 && 0.0 <= s && s * s == B * B - 4.0 * A * c
    ensures (-B - s) / (2.0 * A) < 0.0 < (-B + s) / (2.0 * A)
  {
    MulPositive(4.0 * A, -c);
    SquareMonotone(Abs(B), s);
    assert Abs(B) * Abs(B) == B * B;
  }

  /** Starting inside the threshold, the solver returns the larger (exit) root. */
  lemma SolverGivesExitRoot(A: real, B: real, C: real, R: real, sqrt: real -> real)
    requires IsSqrt(sqrt)
    requires A > 0.0 && C - R * R < 0.0
    ensures 0.0 <= B * B - 4.0 * A * (C - R * R)
    ensures var sq := sqrt(B * B - 4.0 * A * (C - R * R));
            (-B - sq) / (2.0 * A) < 0.0 < (-B + sq) / (2.0 * A)
    ensures var sq := sqrt(B * B - 4.0 * A * (C - R * R));
            SolveQuadraticFirstTime(A, B, C, R, sqrt) == Some((-B + sq) / (2.0 * A))
  {
    MulPositive(4.0 * A, -(C - R * R));
    RootsStraddleZero(A, B, C - R * R, sqrt(B * B - 4.0 * A * (C - R * R)));
  }

  /** Starting inside the threshold, the quadratic stays negative until the exit root. */
  lemma NegativeUntilExitRoot(A: real, B: real, C: real, R: real, sqrt: real -> real)
    requires IsSqrt(sqrt)
    requires A > 0.0 && C - R * R < 0.0
    ensures var sq := sqrt(B * B - 4.0 * A * (C - R * R));
            forall s :: 0.0 <= s < (-B + sq) / (2.0 * A) ==> ThresholdQuadratic(A, B, C, R, s) < 0.0
  {
    SolverGivesExitRoot(A, B, C, R, sqrt);
    var sq := sqrt(B * B - 4.0 * A * (C - R * R));
    forall s | 0.0 <= s < (-B + sq) / (2.0 * A) ensures ThresholdQuadratic(A, B, C, R, s) < 0.0 {
      NegativeBetweenRoots(A, B, C - R * R, sq, s);
    }
  }

  /** Relative horizontal motion makes the leading coefficient positive. */
  lemma CoefficientAPositive(a1: AircraftState, a2: AircraftState)
    requires CoefficientA(a1, a2) != 0.0
    ensures CoefficientA(a1, a2) > 0.0
  {
    var dvx, dvy := a1.speedX - a2.speedX, a1.speedY - a2.speedY;
    assert CoefficientA(a1, a2) == dvx * dvx + dvy * dvy;
  }

  /** The constant coefficient is the squared horizontal distance now. */
  lemma CoefficientCIsDistanceNow(a1: AircraftState, a2: AircraftState)
    ensures CoefficientC(a1, a2) == HorizontalDistance2At(a1, a2, 0.0)
  {
    QuadraticIsHorizontalDistance(a1, a2, 0.0);
  }

  /** Where the solver's quadratic is negative the pair is closer than 3000 ft. */
  lemma NegativeMeansInside(a1: AircraftState, a2: AircraftState, bound: real)
    requires forall s :: 0.0 <= s < bound ==>
               ThresholdQuadratic(CoefficientA(a1, a2), CoefficientB(a1, a2), CoefficientC(a1, a2), HorizontalThreshold, s) < 0.0
    ensures forall s :: 0.0 <= s < bound ==> HorizontalDistance2At(a1, a2, s) < HorizontalThreshold * HorizontalThreshold
  {
    forall s | 0.0 <= s < bound ensures HorizontalDistance2At(a1, a2, s) < HorizontalThreshold * HorizontalThreshold {
      var A, B, C := CoefficientA(a1, a2), CoefficientB(a1, a2), CoefficientC(a1, a2);
      ThresholdShift(A, B, C, HorizontalThreshold, s);
      QuadraticIsHorizontalDistance(a1, a2, s);
    }
  }

  /**
   * A pair already closer than 3000 ft horizontally and moving relative to each
   * other gets, as its horizontal time, the moment it leaves that distance: it
   * stays strictly inside up to that time.
   */
  lemma InsideStartGivesExitTime(a1: AircraftState, a2: AircraftState, sqrt: real -> real)
    requires IsSqrt(sqrt)
    requires CoefficientA(a1, a2) != 0.0
    requires HorizontalDistance2At(a1, a2, 0.0) < HorizontalThreshold * HorizontalThreshold
    ensures HorizontalFirstTime(a1, a2, sqrt).Some? && HorizontalFirstTime(a1, a2, sqrt).value.Fin?
    ensures var t := HorizontalFirstTime(a1, a2, sqrt).value.t;
            0.0 < t &&
            forall s :: 0.0 <= s < t ==> HorizontalDistance2At(a1, a2, s) < HorizontalThreshold * HorizontalThreshold
  {
    var A, B, C := CoefficientA(a1, a2), CoefficientB(a1, a2), CoefficientC(a1, a2);
    var H := HorizontalThreshold;
    CoefficientAPositive(a1, a2);
    CoefficientCIsDistanceNow(a1, a2);
    SolverGivesExitRoot(A, B, C, H, sqrt);
    NegativeUntilExitRoot(A, B, C, H, sqrt);
    var t2 := (-B + sqrt(B * B - 4.0 * A * (C - H * H))) / (2.0 * A);
    assert HorizontalFirstTime(a1, a2, sqrt) == Some(Fin(t2));
    NegativeMeansInside(a1, a2, t2);
  }

  /** The scenario of Computer.cpp's first two aircraft (IDs 1 and 2), entered at time 1200. */
  const ScenarioA1: AircraftState := AircraftState(1200, 1, 1000.0, 2000.0, 3000.0, 100.0, 100.0, 0.0, false)
  const ScenarioA2: AircraftState := AircraftState(1200, 2, 4000.0, 5500.0, 3500.0, -100.0, -100.0, 0.0, false)

  /**
   * Not currently in violation (|dx| is exactly 3000 and |dy| is 3500), but a
   * collision is predicted strictly between 0 and 120 seconds.
   */
  lemma ScenarioA1A2(sqrt: real -> real)
    requires IsSqrt(sqrt)
    ensures !ViolationCheck(ScenarioA1, ScenarioA2)
    ensures CollisionCheck(ScenarioA1, ScenarioA2, sqrt).0
    ensures 0.0 < CollisionCheck(ScenarioA1, ScenarioA2, sqrt).1 < MaxTime
  {
    var a1, a2 := ScenarioA1, ScenarioA2;
    var A, B, C := CoefficientA(a1, a2), CoefficientB(a1, a2), CoefficientC(a1, a2);
    assert A == 80000.0 && B == -2600000.0 && C == 21250000.0;
    var disc := B * B - 4.0 * A * (C - 9000000.0);
    assert disc == 2840000000000.0;
    var sq := sqrt(disc);
    assert sq * sq == disc && sq >= 0.0;
    SquareMonotone(sq, 2600000.0);
    var t1 := (-B - sq) / (2.0 * A);
    assert 0.0 < t1 < MaxTime;
    assert SolveQuadraticFirstTime(A, B, C, HorizontalThreshold, sqrt) == Some(t1);
    assert HorizontalFirstTime(a1, a2, sqrt) == Some(Fin(t1));
    assert VerticalFirstTime(a1, a2) == Some(0.0);
    assert CollisionCheck(a1, a2, sqrt) == (true, t1);
  }

  // ---------------------------------------------------------------- alert policy

  /**
   * The decision of `checkAircraftPair`: at most one alert per pair.  A current
   * violation wins with time 0; only without one is a predicted collision
   * reported, with its time; the third branch (`willViolate`) repeats the first
   * test on the same copies.
   */
  function PairAlert(a1: AircraftState, a2: AircraftState, sqrt: real -> real): (r: Option<Alert>)
    requires IsSqrt(sqrt)
    ensures ViolationCheck(a1, a2) ==> r == Some(Alert(0.0, CurrentViolation(a1.aircraftID, a2.aircraftID)))
    ensures !ViolationCheck(a1, a2) ==> (r.Some? <==> CollisionCheck(a1, a2, sqrt).0)
    ensures !ViolationCheck(a1, a2) && r.Some? ==>
              var t := CollisionCheck(a1, a2, sqrt).1;
              r.value == Alert(t, PredictedCollision(a1.aircraftID, a2.aircraftID, t))
    ensures r.Some? ==> 0.0 <= r.value.time <= MaxTime
  {
    var isViolation := ViolationCheck(a1, a2);
    var willCollide := CollisionCheck(a1, a2, sqrt);
    var willViolate := ViolationCheck(a1, a2);
    if isViolation then
      Some(Alert(0.0, CurrentViolation(a1.aircraftID, a2.aircraftID)))
    else if willCollide.0 then
      Some(Alert(willCollide.1, PredictedCollision(a1.aircraftID, a2.aircraftID, willCollide.1)))
    else if willViolate then
      Some(Alert(120.0, ViolationWithinHorizon(a1.aircraftID, a2.aircraftID)))
    else
      None
  }

  /** The "violation within the next 2 minutes" alert is never raised. */
  lemma WillViolateBranchUnreachable(a1: AircraftState, a2: AircraftState, sqrt: real -> real)
    requires IsSqrt(sqrt)
    ensures PairAlert(a1, a2, sqrt).Some? ==> !PairAlert(a1, a2, sqrt).value.message.ViolationWithinHorizon?
  {
  }

  /** A pair gets the current-violation alert exactly when it is in violation now. */
  lemma CurrentViolationAlertIffViolation(a1: AircraftState, a2: AircraftState, sqrt: real -> real)
    requires IsSqrt(sqrt)
    ensures ViolationCheck(a1, a2) <==>
              PairAlert(a1, a2, sqrt).Some? && PairAlert(a1, a2, sqrt).value.message.CurrentViolation?
  {
  }
}
