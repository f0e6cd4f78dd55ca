/**
 * Navigation on the sphere: the point a given distance along the great circle towards a target,
 * the bisection root finder, the interception of a moving target, and the choice of the point an
 * entity heads for.
 */
module Navigation {
  import opened Wrappers
  import opened UnityMath
  import opened Geometry
  import opened Host

  /** C#'s ushort. */
  type UShort = n: nat | n < 0x1_0000

  // ---------------------------------------------------------------------------------------------
  // Travelling towards a target

  /** The direction of travel from `origin` towards `target`: the great circle's normal crossed with the origin. */
  function TravelDirection(origin: Vector3, target: Vector3): Vector3
  {
    origin.Cross(target).Cross(origin)
  }

  /**
   * The position `distance` away from `origin` on the great circle through `origin` and `target`,
   * heading for `target`. The angle is AngleFromDistance's, in degrees, fed to sin and cos as is.
   */
  function TowardsTargetDistance(origin: Vector3, target: Vector3, distance: real, trig: Trig): Vector3
  {
    var direction := TravelDirection(origin, target);
    var angle := AngleFromDistance(distance);
    origin.Normalized(trig).Scale(trig.cos(angle)).Plus(direction.Normalized(trig).Scale(trig.sin(angle)))
  }

  /** Travelling no distance stays at the (normalised) origin. */
  lemma TowardsTargetZeroDistance(origin: Vector3, target: Vector3, trig: Trig)
    requires trig.AtZero()
    ensures TowardsTargetDistance(origin, target, 0.0, trig) == origin.Normalized(trig)
  {
    assert AngleFromDistance(0.0) == 0.0;
  }

  /**
   * The direction of travel is tangent to the sphere at the origin and lies in the plane of the
   * great circle through the origin and the target.
   */
  lemma TravelDirectionTangent(origin: Vector3, target: Vector3)
    ensures TravelDirection(origin, target).Dot(origin) == 0.0
    ensures TravelDirection(origin, target).Dot(origin.Cross(target)) == 0.0
  {
    CrossPerpendicular(origin.Cross(target), origin);
  }

  // ---------------------------------------------------------------------------------------------
  // The bisection method

  datatype BisectionError =
    | BoundsOutOfOrder  // lowerBound > upperBound
    | SameSign          // Sign(f(lowerBound)) == Sign(f(upperBound))

  /** The current search domain [lower, upper]. */
  datatype Bracket = Bracket(lower: real, upper: real)
  {
    function Midpoint(): real { (lower + upper) / 2.0 }

    function HalfWidth(): real { (upper - lower) / 2.0 }

    function Width(): real { upper - lower }

    /** The bracket is ordered and f changes sign on it, as Mathf.Sign sees it. */
    predicate SignChange(f: real -> real)
    {
      lower <= upper && Sign(f(lower)) != Sign(f(upper))
    }
  }

  /** 2^k */
  function Pow2(k: nat): (p: real)
    ensures p >= 1.0
  {
    if k == 0 then 1.0 else 2.0 * Pow2(k - 1)
  }

  /** One step of the method: keep the half whose lower end has the sign of f at the midpoint's side. */
  function Halve(f: real -> real, b: Bracket): Bracket
  {
    var midpoint := b.Midpoint();
    if Sign(f(midpoint)) == Sign(f(b.lower)) then Bracket(midpoint, b.upper) else Bracket(b.lower, midpoint)
  }

  /** The bracket after k steps from b. */
  function BracketAfter(f: real -> real, b: Bracket, k: nat): Bracket
    decreases k
  {
    if k == 0 then b else BracketAfter(f, Halve(f, b), k - 1)
  }

  /** The stopping test of an iteration: f is 0 at the midpoint, or the half-width is below the tolerance. */
  predicate Stops(f: real -> real, tolerance: real, b: Bracket)
  {
    f(b.Midpoint()) == 0.0 || b.HalfWidth() < tolerance
  }

  /** The midpoint of the first of `remaining` iterations from b that stops; None (NaN) when none does. */
  function Search(f: real -> real, b: Bracket, tolerance: real, remaining: nat): Option<real>
    decreases remaining
  {
    if remaining == 0 then None
    else if Stops(f, tolerance, b) then Some(b.Midpoint())
    else Search(f, Halve(f, b), tolerance, remaining - 1)
  }

  /**
   * What BisectionMethod computes: an error for bounds out of order or without a sign change, and
   * otherwise the result of at most maxIterations iterations, None standing for NaN.
   */
  function Bisection(f: real -> real, lowerBound: real, upperBound: real, tolerance: real, maxIterations: nat)
    : (r: Result<Option<real>, BisectionError>)
    ensures r == Failure(BoundsOutOfOrder) <==> lowerBound > upperBound
    ensures r == Failure(SameSign) <==> lowerBound <= upperBound && Sign(f(lowerBound)) == Sign(f(upperBound))
    ensures r.Success? <==> Bracket(lowerBound, upperBound).SignChange(f)
  {
    if lowerBound > upperBound then Failure(BoundsOutOfOrder)
    else if Sign(f(lowerBound)) == Sign(f(upperBound)) then Failure(SameSign)
    else Success(Search(f, Bracket(lowerBound, upperBound), tolerance, maxIterations))
  }

  /** A step keeps the sign change, stays inside the bracket and halves its width. */
  lemma HalveKeepsBracket(f: real -> real, b: Bracket)
    requires b.SignChange(f)
    ensures Halve(f, b).SignChange(f)
    ensures b.lower <= Halve(f, b).lower && Halve(f, b).upper <= b.upper
    ensures Halve(f, b).Width() == b.Width() / 2.0
  {
  }

  lemma {:induction false} BracketAfterStep(f: real -> real, b: Bracket, k: nat)
    ensures BracketAfter(f, b, k + 1) == Halve(f, BracketAfter(f, b, k))
    decreases k
  {
    if k > 0 {
      BracketAfterStep(f, Halve(f, b), k - 1);
    }
  }

  /**
   * The loop invariant: after k steps the bracket is still ordered with a sign change, lies inside
   * the original one, and is 2^k times narrower.
   */
  lemma {:induction false} BracketAfterInvariant(f: real -> real, b: Bracket, k: nat)
    requires b.SignChange(f)
    ensures BracketAfter(f, b, k).SignChange(f)
    ensures b.lower <= BracketAfter(f, b, k).lower && BracketAfter(f, b, k).upper <= b.upper
    ensures BracketAfter(f, b, k).Width() == b.Width() / Pow2(k)
    decreases k
  {
    if k > 0 {
      var h := Halve(f, b);
      HalveKeepsBracket(f, b);
      BracketAfterInvariant(f, h, k - 1);
      var p := Pow2(k - 1);
      assert b.Width() / 2.0 / p == b.Width() / (2.0 * p) by {
        DivideTwice(b.Width(), 2.0, p);
      }
    }
  }

  lemma DivideTwice(w: real, a: real, b: real)
    requires a > 0.0 && b > 0.0
    ensures w / a / b == w / (a * b)
  {
    var q := w / a / b;
    assert q * b == w / a;
    assert q * b * a == w;
    assert q * (a * b) == w;
  }

  /** None of the first n iterations from b stops. */
  ghost predicate NoneStops(f: real -> real, b: Bracket, tolerance: real, n: nat)
  {
    forall k :: 0 <= k < n ==> !Stops(f, tolerance, BracketAfter(f, b, k))
  }

  /** Search yields None exactly when none of its iterations stops. */
  lemma {:induction false} SearchNone(f: real -> real, b: Bracket, tolerance: real, n: nat)
    ensures Search(f, b, tolerance, n).None? <==> NoneStops(f, b, tolerance, n)
    decreases n
  {
    if n > 0 {
      if Stops(f, tolerance, b) {
        assert BracketAfter(f, b, 0) == b;
        assert Search(f, b, tolerance, n).Some?;
        assert !NoneStops(f, b, tolerance, n);
      } else {
        var h := Halve(f, b);
        SearchNone(f, h, tolerance, n - 1);
        assert Search(f, b, tolerance, n) == Search(f, h, tolerance, n - 1);
        forall k | 0 < k < n
          ensures BracketAfter(f, b, k) == BracketAfter(f, h, k - 1)
        {
        }
        if Search(f, b, tolerance, n).None? {
          forall k | 0 <= k < n
            ensures !Stops(f, tolerance, BracketAfter(f, b, k))
          {
            if k > 0 {
              assert !Stops(f, tolerance, BracketAfter(f, h, k - 1));
            }
          }
        } else {
          var j :| 0 <= j < n - 1 && Stops(f, tolerance, BracketAfter(f, h, j));
          assert 0 <= j + 1 < n && Stops(f, tolerance, BracketAfter(f, b, j + 1));
          assert !NoneStops(f, b, tolerance, n);
        }
      }
    }
  }

  /** The k-th iteration stops and none before it does. */
  ghost predicate FirstStop(f: real -> real, b: Bracket, tolerance: real, k: nat)
  {
    && Stops(f, tolerance, BracketAfter(f, b, k))
    && forall j :: 0 <= j < k ==> !Stops(f, tolerance, BracketAfter(f, b, j))
  }

  /** A value Search returns is the midpoint of the first iteration that stops. */
  lemma {:induction false} SearchSome(f: real -> real, b: Bracket, tolerance: real, n: nat, t: real)
    requires Search(f, b, tolerance, n) == Some(t)
    ensures exists k :: 0 <= k < n && FirstStop(f, b, tolerance, k) && t == BracketAfter(f, b, k).Midpoint()
    decreases n
  {
    if Stops(f, tolerance, b) {
      assert FirstStop(f, b, tolerance, 0);
    } else {
      var h := Halve(f, b);
      SearchSome(f, h, tolerance, n - 1, t);
      var k :| 0 <= k < n - 1 && FirstStop(f, h, tolerance, k) && t == BracketAfter(f, h, k).Midpoint();
      forall j | 0 <= j < k + 1
        ensures !Stops(f, tolerance, BracketAfter(f, b, j))
      {
        if j > 0 {
          assert BracketAfter(f, b, j) == BracketAfter(f, h, j - 1);
        }
      }
      assert FirstStop(f, b, tolerance, k + 1);
    }
  }

  /**
   * What a returned value is: the midpoint of the bracket of the first iteration that stopped,
   * within maxIterations iterations; that bracket is ordered with a sign change, inside the
   * original bounds and 2^k times narrower; and either f is 0 at the value or every point of the
   * bracket is less than `tolerance` away from it.
   */
  ghost predicate Returned(f: real -> real, lowerBound: real, upperBound: real, tolerance: real, k: nat, t: real)
  {
    var c := BracketAfter(f, Bracket(lowerBound, upperBound), k);
    && FirstStop(f, Bracket(lowerBound, upperBound), tolerance, k)
    && t == c.Midpoint()
    && c.SignChange(f)
    && lowerBound <= c.lower && c.upper <= upperBound
    && c.Width() == (upperBound - lowerBound) / Pow2(k)
    && (f(t) == 0.0 || (t - tolerance < c.lower && c.upper < t + tolerance))
  }

  lemma BisectionFound(f: real -> real, lowerBound: real, upperBound: real, tolerance: real, maxIterations: nat, t: real)
    requires Bisection(f, lowerBound, upperBound, tolerance, maxIterations) == Success(Some(t))
    ensures exists k :: 0 <= k < maxIterations && Returned(f, lowerBound, upperBound, tolerance, k, t)
  {
    var b := Bracket(lowerBound, upperBound);
    SearchSome(f, b, tolerance, maxIterations, t);
    var k :| 0 <= k < maxIterations && FirstStop(f, b, tolerance, k) && t == BracketAfter(f, b, k).Midpoint();
    BracketAfterInvariant(f, b, k);
    assert Returned(f, lowerBound, upperBound, tolerance, k, t);
  }

  /** NaN comes back only when the iteration cap is reached without any iteration stopping. */
  lemma BisectionNaN(f: real -> real, lowerBound: real, upperBound: real, tolerance: real, maxIterations: nat)
    requires Bisection(f, lowerBound, upperBound, tolerance, maxIterations) == Success(None)
    ensures forall k :: 0 <= k < maxIterations ==> !Stops(f, tolerance, BracketAfter(f, Bracket(lowerBound, upperBound), k))
  {
    SearchNone(f, Bracket(lowerBound, upperBound), tolerance, maxIterations);
  }

  /**
   * Convergence: from a valid bracket, once k halvings bring the width below twice the tolerance
   * and k iterations are allowed, a value (not NaN) is returned.
   */
  lemma BisectionConverges(f: real -> real, lowerBound: real, upperBound: real, tolerance: real, maxIterations: nat, k: nat)
    requires Bracket(lowerBound, upperBound).SignChange(f)
    requires k < maxIterations
    requires (upperBound - lowerBound) / Pow2(k) < 2.0 * tolerance
    ensures Bisection(f, lowerBound, upperBound, tolerance, maxIterations).Success?
    ensures Bisection(f, lowerBound, upperBound, tolerance, maxIterations).value.Some?
  {
    var b := Bracket(lowerBound, upperBound);
    BracketAfterInvariant(f, b, k);
    assert Stops(f, tolerance, BracketAfter(f, b, k));
    SearchNone(f, b, tolerance, maxIterations);
  }

  /**
   * Root finding by repeated halving of a bracket whose ends f gives opposite signs: each pass
   * keeps the half with the sign change, and stops with the middle of the bracket once f vanishes
   * there or half the bracket is narrower than `tolerance`. After maxIterations passes without
   * stopping the result is None (NaN).
   */
  method BisectionMethod(f: real -> real, lowerBound: real, upperBound: real, tolerance: real, maxIterations: UShort)
    returns (r: Result<Option<real>, BisectionError>)
    ensures r == Bisection(f, lowerBound, upperBound, tolerance, maxIterations)
  {
    if lowerBound > upperBound {
      return Failure(BoundsOutOfOrder);
    }
    if Sign(f(lowerBound)) == Sign(f(upperBound)) {
      return Failure(SameSign);
    }
    ghost var start := Bracket(lowerBound, upperBound);
    var lower, upper := lowerBound, upperBound;
    var i := 0;
    while i < maxIterations
      invariant 0 <= i <= maxIterations
      invariant Bracket(lower, upper) == BracketAfter(f, start, i)
      invariant Bracket(lower, upper).SignChange(f)
      invariant lowerBound <= lower && upper <= upperBound
      invariant Search(f, start, tolerance, maxIterations) == Search(f, Bracket(lower, upper), tolerance, maxIterations - i)
    {
      var midpoint := (lower + upper) / 2.0;
      var value := f(midpoint);
      if value == 0.0 || (upper - lower) / 2.0 < tolerance {
        return Success(Some(midpoint));
      }
      BracketAfterStep(f, start, i);
      HalveKeepsBracket(f, Bracket(lower, upper));
      if Sign(value) == Sign(f(lower)) {
        lower := midpoint;
      } else {
        upper := midpoint;
      }
      i := i + 1;
    }
    return Success(None);
  }

  // ---------------------------------------------------------------------------------------------
  // Interception

  datatype NavigationError =
    | InvalidBisection(reason: BisectionError)  // the ArgumentException of BisectionMethod
    | Host(error: HostError)

  const InterceptionTolerance: real := 0.1
  const InterceptionMaxIterations: UShort := 100

  /** The time for the interceptor to travel half the Earth's circumference, the upper bound of the search. */
  function InterceptionUpperBound(intSpeed: real): (u: real)
    requires intSpeed != 0.0
    ensures u * intSpeed == PI * Radius
    ensures u < 0.0 <==> intSpeed < 0.0
  {
    PI * Radius / intSpeed
  }

  /** Where the target is after time t, following its own great circle to its goal. */
  function TargetPositionAt(tarPos: Vector3, tarGoalPos: Vector3, tarSpeed: real, t: real, trig: Trig): Vector3
  {
    TowardsTargetDistance(tarPos, tarGoalPos, tarSpeed * t, trig)
  }

  /**
   * The equation solved for the interception time, as the code has it:
   * t - DistanceBetweenPoints(interceptor, target at t) / interceptor speed.
   */
  function InterceptionEquation(tarPos: Vector3, tarGoalPos: Vector3, intPos: Vector3, intSpeed: real, tarSpeed: real, trig: Trig)
    : real -> real
    requires intSpeed != 0.0
  {
    t => t - DistanceBetweenPoints(TargetPositionAt(tarPos, tarGoalPos, tarSpeed, t, trig), intPos, trig) / intSpeed
  }

  /** The same equation over the great-circle distance. */
  function InterceptionEquationCorrected(tarPos: Vector3, tarGoalPos: Vector3, intPos: Vector3, intSpeed: real, tarSpeed: real, trig: Trig)
    : real -> real
    requires intSpeed != 0.0
  {
    t => t - GreatCircleDistance(TargetPositionAt(tarPos, tarGoalPos, tarSpeed, t, trig), intPos, trig) / intSpeed
  }

  /**
   * At t = 0 the equation's value is minus the distance to the (normalised) target over the
   * interceptor's speed; for a positive speed and a non-negative distance it is at most 0.
   */
  lemma InterceptionEquationAtZero(tarPos: Vector3, tarGoalPos: Vector3, intPos: Vector3, intSpeed: real, tarSpeed: real, trig: Trig)
    requires intSpeed != 0.0
    requires trig.AtZero()
    ensures InterceptionEquation(tarPos, tarGoalPos, intPos, intSpeed, tarSpeed, trig)(0.0)
         == -DistanceBetweenPoints(tarPos.Normalized(trig), intPos, trig) / intSpeed
    ensures intSpeed > 0.0 && DistanceBetweenPoints(tarPos.Normalized(trig), intPos, trig) >= 0.0
         ==> InterceptionEquation(tarPos, tarGoalPos, intPos, intSpeed, tarSpeed, trig)(0.0) <= 0.0
  {
    assert tarSpeed * 0.0 == 0.0;
    TowardsTargetZeroDistance(tarPos, tarGoalPos, trig);
    assert TargetPositionAt(tarPos, tarGoalPos, tarSpeed, 0.0, trig) == tarPos.Normalized(trig);
    var d := DistanceBetweenPoints(tarPos.Normalized(trig), intPos, trig);
    if intSpeed > 0.0 && d >= 0.0 {
      assert d / intSpeed >= 0.0;
    }
  }

  /** The fallback when no interception time is found, as the code has it: the target's geoscape position, converted to a Vector3 as (x, y, 0). */
  function NoInterceptionFallback(targetPosition: Vector2): Vector3
  {
    Lift(targetPosition)
  }

  /** The fallback as written is not a point of the unit sphere: at Null Island it is (897, 464, 0). */
  lemma FallbackOffSphere()
    ensures NoInterceptionFallback(OriginCorrection) == Vector3(897.0, 464.0, 0.0)
    ensures NoInterceptionFallback(OriginCorrection).SqrMagnitude() != 1.0
  {
  }

  /** The fallback the rest of the method implies: the target's current position, as a normal vector. */
  function NoInterceptionFallbackCorrected(targetPosition: Vector2, width: real, trig: Trig): Vector3
    requires width != 0.0
  {
    GeoscapeToNormal(targetPosition, width, trig)
  }

  /** The corrected fallback is a point of the unit sphere, as every other result of the interception is. */
  lemma FallbackCorrectedOnSphere(targetPosition: Vector2, width: real, trig: Trig)
    requires width != 0.0
    requires trig.PythagoreanAt(DegToRad(GeoscapeToGCS(targetPosition, width).x))
    requires trig.PythagoreanAt(DegToRad(GeoscapeToGCS(targetPosition, width).y))
    ensures NoInterceptionFallbackCorrected(targetPosition, width, trig).SqrMagnitude() == 1.0
  {
  }

  /** The decision after the search: no time, or a time not in the future, gives the fallback. */
  function PointFromInterceptTime(interceptTime: Option<real>, tarPos: Vector3, tarGoalPos: Vector3, tarSpeed: real, fallback: Vector3, trig: Trig)
    : Vector3
  {
    if interceptTime.None? || interceptTime.value <= 0.0 then fallback
    else TargetPositionAt(tarPos, tarGoalPos, tarSpeed, interceptTime.value, trig)
  }

  /** The search for the interception time on [0, upper], followed by the decision. */
  function InterceptionFrom(f: real -> real, upper: real, tarPos: Vector3, tarGoalPos: Vector3, tarSpeed: real, fallback: Vector3, trig: Trig)
    : Result<Vector3, NavigationError>
  {
    match Bisection(f, 0.0, upper, InterceptionTolerance, InterceptionMaxIterations)
    case Failure(e) => Failure(InvalidBisection(e))
    case Success(interceptTime) => Success(PointFromInterceptTime(interceptTime, tarPos, tarGoalPos, tarSpeed, fallback, trig))
  }

  /** The search fails with BoundsOutOfOrder exactly when the upper bound is below 0. */
  lemma InterceptionFromOutOfOrder(f: real -> real, upper: real, tarPos: Vector3, tarGoalPos: Vector3, tarSpeed: real, fallback: Vector3, trig: Trig)
    ensures InterceptionFrom(f, upper, tarPos, tarGoalPos, tarSpeed, fallback, trig) == Failure(InvalidBisection(BoundsOutOfOrder))
        <==> upper < 0.0
  {
  }

  /**
   * A point the search finds is the fallback, or where the target is after a time t in (0, upper].
   */
  lemma InterceptionFromOnRoute(f: real -> real, upper: real, tarPos: Vector3, tarGoalPos: Vector3, tarSpeed: real, fallback: Vector3, trig: Trig, p: Vector3)
    requires InterceptionFrom(f, upper, tarPos, tarGoalPos, tarSpeed, fallback, trig) == Success(p)
    ensures || p == fallback
            || exists t :: 0.0 < t <= upper && p == TargetPositionAt(tarPos, tarGoalPos, tarSpeed, t, trig)
  {
    var r := Bisection(f, 0.0, upper, InterceptionTolerance, InterceptionMaxIterations);
    if r.value.Some? && r.value.value > 0.0 {
      var t := r.value.value;
      BisectionFound(f, 0.0, upper, InterceptionTolerance, InterceptionMaxIterations, t);
      var k :| 0 <= k < InterceptionMaxIterations && Returned(f, 0.0, upper, InterceptionTolerance, k, t);
      assert t <= upper;
    }
  }

  /** With a target speed of 0, the decision gives the normalised target position when a time is found, and the fallback otherwise. */
  lemma StaticTargetPoint(interceptTime: Option<real>, tarPos: Vector3, tarGoalPos: Vector3, fallback: Vector3, trig: Trig)
    requires trig.AtZero() && trig.SqrtAt(1.0)
    requires tarPos.SqrMagnitude() == 1.0
    ensures interceptTime.Some? && interceptTime.value > 0.0
        ==> PointFromInterceptTime(interceptTime, tarPos, tarGoalPos, 0.0, fallback, trig) == tarPos
    ensures PointFromInterceptTime(interceptTime, tarPos, tarGoalPos, 0.0, fallback, trig) in {tarPos, fallback}
  {
    if interceptTime.Some? && interceptTime.value > 0.0 {
      var t := interceptTime.value;
      assert 0.0 * t == 0.0;
      TowardsTargetZeroDistance(tarPos, tarGoalPos, trig);
      NormalizedUnit(tarPos, trig);
    }
  }

  /**
   * Where an interceptor flying straight at its speed catches a target that stays on its route to
   * its goal, computed as the code does: DistanceBetweenPoints in the equation and the lifted
   * geoscape position as the fallback.
   */
  function InterceptionPoint(interceptor: Entity, target: Entity, width: real, trig: Trig): Result<Vector3, NavigationError>
    requires width != 0.0 && interceptor.speed != 0.0
  {
    if target.goal.None? then Failure(Host(NoGoal))
    else
      var tarPos := GeoscapeToNormal(target.position, width, trig);
      var tarGoalPos := GeoscapeToNormal(target.goal.value.position, width, trig);
      var intPos := GeoscapeToNormal(interceptor.position, width, trig);
      var f := InterceptionEquation(tarPos, tarGoalPos, intPos, interceptor.speed, target.speed, trig);
      InterceptionFrom(f, InterceptionUpperBound(interceptor.speed), tarPos, tarGoalPos, target.speed,
        NoInterceptionFallback(target.position), trig)
  }

  /** The interception point with the great-circle distance in the equation and the target's normal vector as the fallback. */
  function InterceptionPointCorrected(interceptor: Entity, target: Entity, width: real, trig: Trig): Result<Vector3, NavigationError>
    requires width != 0.0 && interceptor.speed != 0.0
  {
    if target.goal.None? then Failure(Host(NoGoal))
    else
      var tarPos := GeoscapeToNormal(target.position, width, trig);
      var tarGoalPos := GeoscapeToNormal(target.goal.value.position, width, trig);
      var intPos := GeoscapeToNormal(interceptor.position, width, trig);
      var f := InterceptionEquationCorrected(tarPos, tarGoalPos, intPos, interceptor.speed, target.speed, trig);
      InterceptionFrom(f, InterceptionUpperBound(interceptor.speed), tarPos, tarGoalPos, target.speed,
        NoInterceptionFallbackCorrected(target.position, width, trig), trig)
  }

  /**
   * The error cases, as written and corrected alike: a target without a goal fails before anything
   * else; with a goal, a negative interceptor speed puts the upper bound below 0 and the bounds out
   * of order.
   */
  lemma InterceptionErrors(interceptor: Entity, target: Entity, width: real, trig: Trig)
    requires width != 0.0 && interceptor.speed != 0.0
    ensures InterceptionPoint(interceptor, target, width, trig) == Failure(Host(NoGoal)) <==> target.goal.None?
    ensures InterceptionPoint(interceptor, target, width, trig) == Failure(InvalidBisection(BoundsOutOfOrder))
        <==> target.goal.Some? && interceptor.speed < 0.0
    ensures InterceptionPointCorrected(interceptor, target, width, trig) == Failure(Host(NoGoal)) <==> target.goal.None?
    ensures InterceptionPointCorrected(interceptor, target, width, trig) == Failure(InvalidBisection(BoundsOutOfOrder))
        <==> target.goal.Some? && interceptor.speed < 0.0
  {
    if target.goal.Some? {
      var tarPos := GeoscapeToNormal(target.position, width, trig);
      var tarGoalPos := GeoscapeToNormal(target.goal.value.position, width, trig);
      var intPos := GeoscapeToNormal(interceptor.position, width, trig);
      var u := InterceptionUpperBound(interceptor.speed);
      InterceptionFromOutOfOrder(InterceptionEquation(tarPos, tarGoalPos, intPos, interceptor.speed, target.speed, trig),
        u, tarPos, tarGoalPos, target.speed, NoInterceptionFallback(target.position), trig);
      InterceptionFromOutOfOrder(InterceptionEquationCorrected(tarPos, tarGoalPos, intPos, interceptor.speed, target.speed, trig),
        u, tarPos, tarGoalPos, target.speed, NoInterceptionFallbackCorrected(target.position, width, trig), trig);
    }
  }

  /**
   * A point the code finds is the lifted geoscape position of the target (the fallback), or where
   * the target is after a time t with 0 < t <= the search's upper bound.
   */
  lemma InterceptionOnTargetRoute(interceptor: Entity, target: Entity, width: real, trig: Trig, p: Vector3)
    requires width != 0.0 && interceptor.speed != 0.0
    requires InterceptionPoint(interceptor, target, width, trig) == Success(p)
    ensures target.goal.Some?
    ensures || p == Lift(target.position)
            || exists t :: 0.0 < t <= InterceptionUpperBound(interceptor.speed) && p == TargetPositionAt(
                 GeoscapeToNormal(target.position, width, trig), GeoscapeToNormal(target.goal.value.position, width, trig),
                 target.speed, t, trig)
  {
    var tarPos := GeoscapeToNormal(target.position, width, trig);
    var tarGoalPos := GeoscapeToNormal(target.goal.value.position, width, trig);
    var intPos := GeoscapeToNormal(interceptor.position, width, trig);
    InterceptionFromOnRoute(InterceptionEquation(tarPos, tarGoalPos, intPos, interceptor.speed, target.speed, trig),
      InterceptionUpperBound(interceptor.speed), tarPos, tarGoalPos, target.speed, NoInterceptionFallback(target.position), trig, p);
  }

  /** The same for the corrected interception, whose fallback is the target's normal vector. */
  lemma InterceptionCorrectedOnTargetRoute(interceptor: Entity, target: Entity, width: real, trig: Trig, p: Vector3)
    requires width != 0.0 && interceptor.speed != 0.0
    requires InterceptionPointCorrected(interceptor, target, width, trig) == Success(p)
    ensures target.goal.Some?
    ensures || p == GeoscapeToNormal(target.position, width, trig)
            || exists t :: 0.0 < t <= InterceptionUpperBound(interceptor.speed) && p == TargetPositionAt(
                 GeoscapeToNormal(target.position, width, trig), GeoscapeToNormal(target.goal.value.position, width, trig),
                 target.speed, t, trig)
  {
    var tarPos := GeoscapeToNormal(target.position, width, trig);
    var tarGoalPos := GeoscapeToNormal(target.goal.value.position, width, trig);
    var intPos := GeoscapeToNormal(interceptor.position, width, trig);
    InterceptionFromOnRoute(InterceptionEquationCorrected(tarPos, tarGoalPos, intPos, interceptor.speed, target.speed, trig),
      InterceptionUpperBound(interceptor.speed), tarPos, tarGoalPos, target.speed,
      NoInterceptionFallbackCorrected(target.position, width, trig), trig, p);
  }

  /**
   * A target with speed 0, as the code has it: when the interception returns a point p, the search
   * returned a value; a time > 0 makes p the target's own normal vector, and NaN or a time <= 0
   * makes it the target's geoscape position lifted to (x, y, 0).
   */
  lemma StaticTargetInterception(interceptor: Entity, target: Entity, width: real, trig: Trig, p: Vector3)
    requires width != 0.0 && interceptor.speed != 0.0
    requires target.speed == 0.0
    requires trig.AtZero() && trig.SqrtAt(1.0)
    requires trig.PythagoreanAt(DegToRad(GeoscapeToGCS(target.position, width).x))
    requires trig.PythagoreanAt(DegToRad(GeoscapeToGCS(target.position, width).y))
    requires InterceptionPoint(interceptor, target, width, trig) == Success(p)
    ensures
      var tarPos := GeoscapeToNormal(target.position, width, trig);
      var f := InterceptionEquation(tarPos, GeoscapeToNormal(target.goal.value.position, width, trig),
        GeoscapeToNormal(interceptor.position, width, trig), interceptor.speed, target.speed, trig);
      var r := Bisection(f, 0.0, InterceptionUpperBound(interceptor.speed), InterceptionTolerance, InterceptionMaxIterations);
      && r.Success?
      && (r.value.Some? && r.value.value > 0.0 ==> p == tarPos)
      && (!(r.value.Some? && r.value.value > 0.0) ==> p == Lift(target.position))
  {
    var tarPos := GeoscapeToNormal(target.position, width, trig);
    var tarGoalPos := GeoscapeToNormal(target.goal.value.position, width, trig);
    var intPos := GeoscapeToNormal(interceptor.position, width, trig);
    var f := InterceptionEquation(tarPos, tarGoalPos, intPos, interceptor.speed, target.speed, trig);
    var r := Bisection(f, 0.0, InterceptionUpperBound(interceptor.speed), InterceptionTolerance, InterceptionMaxIterations);
    assert r.Success? && p == PointFromInterceptTime(r.value, tarPos, tarGoalPos, 0.0, Lift(target.position), trig);
    FallbackCorrectedOnSphere(target.position, width, trig);
    StaticTargetPoint(r.value, tarPos, tarGoalPos, Lift(target.position), trig);
  }

  /** With the corrected fallback, when the interception returns a point for a target with speed 0, that point is where the target is. */
  lemma StaticTargetInterceptionCorrected(interceptor: Entity, target: Entity, width: real, trig: Trig, p: Vector3)
    requires width != 0.0 && interceptor.speed != 0.0
    requires target.speed == 0.0
    requires trig.AtZero() && trig.SqrtAt(1.0)
    requires trig.PythagoreanAt(DegToRad(GeoscapeToGCS(target.position, width).x))
    requires trig.PythagoreanAt(DegToRad(GeoscapeToGCS(target.position, width).y))
    requires InterceptionPointCorrected(interceptor, target, width, trig) == Success(p)
    ensures p == GeoscapeToNormal(target.position, width, trig)
  {
    var tarPos := GeoscapeToNormal(target.position, width, trig);
    var tarGoalPos := GeoscapeToNormal(target.goal.value.position, width, trig);
    var intPos := GeoscapeToNormal(interceptor.position, width, trig);
    var f := InterceptionEquationCorrected(tarPos, tarGoalPos, intPos, interceptor.speed, target.speed, trig);
    var r := Bisection(f, 0.0, InterceptionUpperBound(interceptor.speed), InterceptionTolerance, InterceptionMaxIterations);
    assert r.Success? && p == PointFromInterceptTime(r.value, tarPos, tarGoalPos, 0.0, tarPos, trig);
    FallbackCorrectedOnSphere(target.position, width, trig);
    StaticTargetPoint(r.value, tarPos, tarGoalPos, tarPos, trig);
  }

  /**
   * An interceptor that has reached a target with speed 0, as the code has it: the equation is
   * f(t) = t, so f(0) = 0 and f(upper) > 0 have the same Sign (Sign(0) = +1) and the search
   * fails. With the x,y-only cross term a distance of 0 also comes from two equator points less
   * than 90 degrees apart.
   */
  lemma ReachedStoppedTargetFails(interceptor: Entity, target: Entity, width: real, trig: Trig)
    requires width != 0.0 && interceptor.speed > 0.0
    requires target.speed == 0.0 && target.goal.Some?
    requires trig.AtZero() && trig.SqrtAt(1.0)
    requires trig.PythagoreanAt(DegToRad(GeoscapeToGCS(target.position, width).x))
    requires trig.PythagoreanAt(DegToRad(GeoscapeToGCS(target.position, width).y))
    requires DistanceBetweenPoints(GeoscapeToNormal(target.position, width, trig), GeoscapeToNormal(interceptor.position, width, trig), trig) == 0.0
    ensures InterceptionPoint(interceptor, target, width, trig) == Failure(InvalidBisection(SameSign))
  {
    var tarPos := GeoscapeToNormal(target.position, width, trig);
    var tarGoalPos := GeoscapeToNormal(target.goal.value.position, width, trig);
    var intPos := GeoscapeToNormal(interceptor.position, width, trig);
    var f := InterceptionEquation(tarPos, tarGoalPos, intPos, interceptor.speed, 0.0, trig);
    var u := InterceptionUpperBound(interceptor.speed);
    StoppedTargetStaysPut(tarPos, tarGoalPos, u, width, target.position, trig);
    assert f(0.0) == 0.0;
    assert f(u) == u;
  }

  /** The same holds for the corrected interception: a target with speed 0 at great-circle distance 0 makes the search fail. */
  lemma ReachedStoppedTargetFailsCorrected(interceptor: Entity, target: Entity, width: real, trig: Trig)
    requires width != 0.0 && interceptor.speed > 0.0
    requires target.speed == 0.0 && target.goal.Some?
    requires trig.AtZero() && trig.SqrtAt(1.0)
    requires trig.PythagoreanAt(DegToRad(GeoscapeToGCS(target.position, width).x))
    requires trig.PythagoreanAt(DegToRad(GeoscapeToGCS(target.position, width).y))
    requires GreatCircleDistance(GeoscapeToNormal(target.position, width, trig), GeoscapeToNormal(interceptor.position, width, trig), trig) == 0.0
    ensures InterceptionPointCorrected(interceptor, target, width, trig) == Failure(InvalidBisection(SameSign))
  {
    var tarPos := GeoscapeToNormal(target.position, width, trig);
    var tarGoalPos := GeoscapeToNormal(target.goal.value.position, width, trig);
    var intPos := GeoscapeToNormal(interceptor.position, width, trig);
    var f := InterceptionEquationCorrected(tarPos, tarGoalPos, intPos, interceptor.speed, 0.0, trig);
    var u := InterceptionUpperBound(interceptor.speed);
    StoppedTargetStaysPut(tarPos, tarGoalPos, u, width, target.position, trig);
    assert f(0.0) == 0.0;
    assert f(u) == u;
  }

  /** A target with speed 0 stays at its own normal vector at times 0 and t. */
  lemma StoppedTargetStaysPut(tarPos: Vector3, tarGoalPos: Vector3, t: real, width: real, targetPosition: Vector2, trig: Trig)
    requires width != 0.0
    requires tarPos == GeoscapeToNormal(targetPosition, width, trig)
    requires trig.AtZero() && trig.SqrtAt(1.0)
    requires trig.PythagoreanAt(DegToRad(GeoscapeToGCS(targetPosition, width).x))
    requires trig.PythagoreanAt(DegToRad(GeoscapeToGCS(targetPosition, width).y))
    ensures TargetPositionAt(tarPos, tarGoalPos, 0.0, 0.0, trig) == tarPos
    ensures TargetPositionAt(tarPos, tarGoalPos, 0.0, t, trig) == tarPos
  {
    assert 0.0 * t == 0.0 && 0.0 * 0.0 == 0.0;
    TowardsTargetZeroDistance(tarPos, tarGoalPos, trig);
    FallbackCorrectedOnSphere(targetPosition, width, trig);
    NormalizedUnit(tarPos, trig);
  }

  /**
   * Solve for the time at which the interceptor, flying straight at its own speed, reaches the
   * target moving along its route at its speed, and return where that happens, as InterceptionPoint.
   */
  method GetInterceptionPoint(interceptor: Entity, target: Entity, width: real, trig: Trig)
    returns (r: Result<Vector3, NavigationError>)
    requires width != 0.0 && interceptor.speed != 0.0
    ensures r == InterceptionPoint(interceptor, target, width, trig)
  {
    var tarPos := GeoscapeToNormal(target.position, width, trig);
    if target.goal.None? {
      return Failure(Host(NoGoal));
    }
    var tarGoalPos := GeoscapeToNormal(target.goal.value.position, width, trig);
    var intPos := GeoscapeToNormal(interceptor.position, width, trig);
    var intSpeed := interceptor.speed;
    var tarSpeed := target.speed;
    var f := InterceptionEquation(tarPos, tarGoalPos, intPos, intSpeed, tarSpeed, trig);
    var interceptTime := BisectionMethod(f, 0.0, InterceptionUpperBound(intSpeed), InterceptionTolerance, InterceptionMaxIterations);
    if interceptTime.Failure? {
      return Failure(InvalidBisection(interceptTime.error));
    }
    return Success(PointFromInterceptTime(interceptTime.value, tarPos, tarGoalPos, tarSpeed, NoInterceptionFallback(target.position), trig));
  }

  // ---------------------------------------------------------------------------------------------
  // The point an entity heads for

  /** The entity has a goal, and the goal has a position. */
  predicate HasTarget(entity: Entity)
  {
    entity.goal.Some? && entity.goal.value.hasPosition
  }

  /** The goal can move and is not heading back for the entity: it is intercepted. */
  predicate Intercepts(entity: Entity)
  {
    HasTarget(entity) && entity.goal.value.canMove && !IsLinkedToGoal(entity.goal.value, entity)
  }

  /**
   * The point an entity steers for: its own position when it has nothing with a position to head
   * for; where it will meet its goal when the goal moves and is not itself heading for the entity;
   * and the goal's position in every other case.
   */
  method GetTargetPosition(entity: Entity, width: real, trig: Trig) returns (r: Result<Vector3, NavigationError>)
    requires width != 0.0
    requires Intercepts(entity) ==> entity.speed != 0.0
    ensures !HasTarget(entity) ==> r == Success(GeoscapeToNormal(entity.position, width, trig))
    ensures Intercepts(entity) ==> r == InterceptionPoint(entity, entity.goal.value, width, trig)
    ensures HasTarget(entity) && !Intercepts(entity)
        ==> r == Success(GeoscapeToNormal(entity.goal.value.position, width, trig))
    ensures r.Failure? ==> Intercepts(entity)
  {
    var target := entity.goal;
    if target.None? || !target.value.hasPosition {
      return Success(GeoscapeToNormal(entity.position, width, trig));
    } else if target.value.canMove && !IsLinkedToGoal(target.value, entity) {
      r := GetInterceptionPoint(entity, target.value, width, trig);
    } else {
      return Success(GeoscapeToNormal(target.value.position, width, trig));
    }
  }
}
