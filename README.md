# Geoshape navigation core, in Dafny

Geoshape is a mod for a strategy game. It replaces flight on the flat strategic map (the
*geoscape*) with flight along great circles of a sphere. This project models three parts of it
over exact reals:

- **Geometry.** These are the maps between geoscape positions, geographic coordinates
  (latitude, longitude in degrees) and unit normal vectors. It also covers the angle and the
  great-circle distance between two points.
- **Navigation.** The bisection root finder, with its two error exits and its NaN result. The
  interception of a moving target solved with it. The choice of the point an entity heads for.
- **GreatCircleArc.** The arc an entity follows, with its start and end clamped below the north
  pole. The table that keeps one arc per entity ID, and how it reuses, rewrites or adds an arc.

Modelling choices:

- `Mathf.Sin`, `Cos`, `Atan2` and `Sqrt` are uninterpreted. They are function values carried in a
  `Trig` record.
- A property that needs a value of one of them names it as a premise: `cos 0 = 1` and
  `sin 0 = 0`, `sin^2 + cos^2 = 1` at one angle, `sqrt v` being the non-negative root of `v`,
  or a single value such as `sqrt 0 = 0`, `sqrt 1 = 1` or `atan2(0, 0) = 0`.
- The width of the geoscape's playable bounds is a host constant, so it is a parameter `width`.
  It is required to be non-zero where the source divides by it.
- Host entities are values of `Host.Entity`. The goal accessors and the speed conversion are inputs.
  `IsLinkedToGoal` is defined from them: the target's goal has the entity's ID.
- The engine's `Vector2 ==` is the engine's tolerance test, squared distance below 1e-10. It is
  not exact equality. `Vector3.normalized` gives the zero vector for magnitudes up to 1e-5.
- `Mathf.Sign(0)` is +1.
- NaN is `None`. An `ArgumentException`, or `.Value` read on an absent goal, is a `Failure`.
- The members named after the source's functions compute what the code as written computes. Two
  places where the code evidently means something else (see "## Findings") are also modelled
  corrected, under their own names: `CentralAngle`, `GreatCircleDistance`,
  `InterceptionEquationCorrected`, `NoInterceptionFallbackCorrected` and
  `InterceptionPointCorrected`.

Modules:

- `Wrappers` holds `Option` and `Result`.
- `UnityMath` holds the engine's math.
- `Geometry`, `Navigation` and `GreatCircle` follow the three source files.
- `Host` holds the view of the host game's entities.

## Model

| member | source | states |
|---|---|---|
| UnityMath.Sign | Navigation.cs:141 | Mathf.Sign is always +1 or -1, and it is +1 exactly for non-negative arguments, 0 included |
| UnityMath.Vector2.ApproxEquals | GreatCircleArc.cs:65 | the engine's Vector2 equality: squared distance below kEpsilon squared; GetArc's contract uses it for the reuse test |
| UnityMath.Vector3.Normalized | Navigation.cs:64 | the vector divided by its length, or zero when the length is at most kEpsilon; NormalizedUnit proves a unit vector is its own normalisation |
| UnityMath.NormalizedUnit | Navigation.cs:64 | given sqrt 1 = 1, normalising a vector of length 1 gives that vector |
| UnityMath.Lift | Navigation.cs:113 | the implicit Vector2 to Vector3 conversion, (x, y) to (x, y, 0); FallbackOffSphere shows what it does to the fallback |
| Geometry.DegToRad | Geometry.cs:19 | degrees times PI / 180; AngleUnitsRoundTrip proves RadToDeg undoes it |
| Geometry.RadToDeg | Geometry.cs:20 | radians / PI times 180; AngleUnitsRoundTrip proves DegToRad undoes it |
| Geometry.AngleUnitsRoundTrip | Geometry.cs:19-20 | degrees to radians and back is the identity, and so is radians to degrees and back |
| Geometry.Norm | Geometry.cs:21-23 | sqrt of the sum of the squared x and y of a Vector2; EquatorAngleAsWritten shows what it gives for a converted cross product |
| Geometry.GeoscapeToGCS | Geometry.cs:30-39 | the origin-corrected map point scaled per axis to (latitude, longitude); GCSRoundTrip, GeoscapeRoundTrip, NullIsland and AxesSeparate state its properties |
| Geometry.GCSToGeoscape | Geometry.cs:44-49 | the inverse per-axis scaling plus the origin correction; GCSRoundTrip and GeoscapeRoundTrip prove it inverts GeoscapeToGCS |
| Geometry.GCSRoundTrip | Geometry.cs:30-49 | for a non-zero playable width, converting a geoscape position to GCS and back gives exactly that position |
| Geometry.GeoscapeRoundTrip | Geometry.cs:30-49 | for a non-zero playable width, converting a (latitude, longitude) pair to the geoscape and back gives exactly that pair |
| Geometry.NullIsland | Geometry.cs:16-48 | the origin correction (897, 464) is latitude 0, longitude 0, and GCSToGeoscape((0, 0)) is (897, 464), for every non-zero width |
| Geometry.AxesSeparate | Geometry.cs:36-38 | the latitude depends only on the geoscape y and the longitude only on the geoscape x; moving one playable width east adds 360 degrees of longitude and leaves the latitude alone |
| Geometry.AntimeridianOnEquator | Geometry.cs:33-38 | half a playable width east of the origin correction is latitude 0, longitude 180 |
| Geometry.GCSToNormal | Geometry.cs:54-64 | where sin^2 + cos^2 = 1 at both angles, the normal vector of a (latitude, longitude) pair has length 1 |
| Geometry.GeoscapeToNormal | Geometry.cs:89-90 | GCSToNormal of GeoscapeToGCS; FallbackCorrectedOnSphere states that it gives a unit vector under the same premises |
| Geometry.AngleBetweenPoints | Geometry.cs:93-98 | atan2 of the norm of the x, y part of the cross product and the dot product, as the code computes it; AngleBetweenPointsSymmetric and EquatorAngleAsWritten state its properties |
| Geometry.AngleBetweenPointsSymmetric | Geometry.cs:93-98 | the angle as the code computes it does not change when the points are swapped: the cross product only negates and the dot product is symmetric |
| Geometry.EquatorAngleAsWritten | Geometry.cs:93-98 | for (1, 0, 0) and (0, 1, 0), two unit vectors a quarter of the equator apart, the code's cross term and dot term are both 0, so the angle is atan2(0, 0) = 0 and so is the distance |
| Geometry.CentralAngle | Geometry.cs:93-98 | the corrected angle: atan2 of the length of the whole cross product and the dot product; AngleTermsOnUnitCircle, EquatorCentralAngle and CentralAngleSymmetric state its properties |
| Geometry.AngleTermsOnUnitCircle | Geometry.cs:93-98 | for two unit vectors, the full cross-product length squared plus the dot product squared is 1, so the terms fed to atan2 are the sine and cosine of one angle |
| Geometry.EquatorCentralAngle | Geometry.cs:93-98 | given sqrt 1 = 1, at the quarter-equator pair the corrected terms are (1, 0), where the code's are (0, 0) |
| Geometry.CentralAngleSymmetric | Geometry.cs:93-98 | the corrected angle is the same in both directions |
| Geometry.AngleFromDistance | Geometry.cs:100-101 | distance / Radius, converted to degrees; AngleFromDistanceLinear states its properties |
| Geometry.AngleFromDistanceLinear | Geometry.cs:100-101 | AngleFromDistance is 0 at 0 and additive over distances, and its result in radians is distance / Radius |
| Geometry.DistanceBetweenPoints | Geometry.cs:103-104 | Radius times the angle as the code computes it; DistanceSymmetric and EquatorAngleAsWritten state its properties |
| Geometry.DistanceSymmetric | Geometry.cs:103-104 | the distance as the code computes it, from a to b, equals the distance from b to a |
| Geometry.GreatCircleDistance | Geometry.cs:103-104 | the corrected distance, Radius times CentralAngle; GreatCircleDistanceSymmetric states its symmetry |
| Geometry.GreatCircleDistanceSymmetric | Geometry.cs:103-104 | the corrected distance from a to b equals the distance from b to a |
| Host.IsLinkedToGoal | Navigation.cs:48 | the target's goal is the entity, by ID; GetTargetPosition's contract uses it through Intercepts |
| Navigation.TravelDirection | Navigation.cs:60-61 | the great circle's normal crossed with the origin; TravelDirectionTangent states its properties |
| Navigation.TravelDirectionTangent | Navigation.cs:60-61 | the direction of travel is perpendicular to the origin, so tangent to the sphere there, and lies in the plane of the great circle through origin and target |
| Navigation.TowardsTargetDistance | Navigation.cs:58-65 | the normalised origin times cos of the angle plus the normalised direction times its sin; TowardsTargetZeroDistance states its value at distance 0 |
| Navigation.TowardsTargetZeroDistance | Navigation.cs:58-65 | given cos 0 = 1 and sin 0 = 0, travelling distance 0 towards any target gives the normalised origin |
| Navigation.Halve | Navigation.cs:150-159 | one step of the loop on a bracket; HalveKeepsBracket states what it preserves |
| Navigation.BracketAfter | Navigation.cs:147-162 | the bracket after k steps; BracketAfterStep and BracketAfterInvariant state its properties |
| Navigation.Search | Navigation.cs:147-164 | the result of at most n iterations from a bracket; SearchNone and SearchSome characterise it |
| Navigation.Bisection | Navigation.cs:135-165 | lowerBound > upperBound is the BoundsOutOfOrder error; otherwise equal signs at the bounds are the SameSign error; the search runs exactly when the bracket is ordered with a sign change |
| Navigation.HalveKeepsBracket | Navigation.cs:150-159 | one step that does not return keeps the bracket ordered with a sign change, stays inside it and halves its width |
| Navigation.BracketAfterStep | Navigation.cs:156-161 | the bracket after k + 1 steps is one more step applied to the bracket after k steps |
| Navigation.BracketAfterInvariant | Navigation.cs:147-162 | after any number k of steps the bracket is ordered with a sign change, lies inside the original bounds and is 2^k times narrower |
| Navigation.SearchNone | Navigation.cs:147-164 | the iterations end in NaN exactly when none of the first maxIterations iterations meets the stopping test |
| Navigation.SearchSome | Navigation.cs:148-154 | a returned value is the midpoint of the first iteration to meet the stopping test, which comes before the cap |
| Navigation.BisectionFound | Navigation.cs:147-161 | a returned value is the midpoint of the bracket after some k < maxIterations steps. That bracket is ordered with a sign change, lies inside the bounds and is 2^k times narrower. Either f is 0 at the value, or every point of the bracket is within tolerance of it |
| Navigation.BisectionNaN | Navigation.cs:147-164 | NaN comes back only when no iteration before the cap met the stopping test |
| Navigation.BisectionConverges | Navigation.cs:145-154 | from a valid bracket, if k halvings bring the width below twice the tolerance and k < maxIterations, the result is a value and not NaN |
| Navigation.BisectionMethod | Navigation.cs:135-165 | the loop computes exactly Bisection, and its invariant keeps the bracket ordered with a sign change, inside the bounds and equal to the bracket after i steps |
| Navigation.InterceptionUpperBound | Navigation.cs:106 | the bound times the interceptor's speed is half the Earth's circumference, PI * Radius, and the bound is negative exactly when the speed is |
| Navigation.TargetPositionAt | Navigation.cs:104 | the target's position after time t, tarSpeed * t along its route; StaticTargetPoint states it for speed 0 |
| Navigation.InterceptionEquation | Navigation.cs:103-105 | t minus the code's DistanceBetweenPoints from the interceptor to the target at t, over the interceptor's speed; InterceptionEquationAtZero states its value at 0 |
| Navigation.InterceptionEquationCorrected | Navigation.cs:103-105 | the same equation over GreatCircleDistance |
| Navigation.InterceptionEquationAtZero | Navigation.cs:101-105 | at t = 0 the equation's value is minus the distance between the normalised target and the interceptor over the interceptor's speed; with a positive speed and a non-negative distance it is at most 0 |
| Navigation.NoInterceptionFallback | Navigation.cs:109-113 | the code's fallback, the target's geoscape position lifted to (x, y, 0); FallbackOffSphere shows it is off the sphere |
| Navigation.FallbackOffSphere | Navigation.cs:109-113 | the fallback as written, at (897, 464), is (897, 464, 0), which is not a unit vector |
| Navigation.NoInterceptionFallbackCorrected | Navigation.cs:109-113 | the corrected fallback, the target's position as a normal vector; FallbackCorrectedOnSphere states it is on the sphere |
| Navigation.FallbackCorrectedOnSphere | Navigation.cs:89-113 | the corrected fallback has length 1 where sin^2 + cos^2 = 1 at its angles |
| Navigation.PointFromInterceptTime | Navigation.cs:109-118 | NaN or a time <= 0 gives the fallback, any other time the target's position after it; StaticTargetPoint states its properties |
| Navigation.StaticTargetPoint | Navigation.cs:109-118 | with target speed 0 and a unit target position, a time > 0 gives the target's position; every outcome is that position or the fallback |
| Navigation.InterceptionFrom | Navigation.cs:103-118 | the search on [0, upper] followed by that decision; InterceptionFromOutOfOrder and InterceptionFromOnRoute state its properties |
| Navigation.InterceptionFromOutOfOrder | Navigation.cs:103-106 | the search fails with BoundsOutOfOrder exactly when the upper bound is below 0 |
| Navigation.InterceptionFromOnRoute | Navigation.cs:103-118 | a point found is the fallback or the target's position after a time t with 0 < t <= upper |
| Navigation.InterceptionPoint | Navigation.cs:86-125 | what the code computes: the goal read error, a bisection error, the lifted fallback, or the target's position after the time found; InterceptionErrors, InterceptionOnTargetRoute and StaticTargetInterception state its properties |
| Navigation.InterceptionPointCorrected | Navigation.cs:86-125 | the same with the great-circle distance and the normal-vector fallback |
| Navigation.InterceptionErrors | Navigation.cs:86-106 | as written and corrected alike: a target without a goal fails first, with the goal read error; with a goal, the search fails with BoundsOutOfOrder exactly when the interceptor's speed is negative |
| Navigation.InterceptionOnTargetRoute | Navigation.cs:103-118 | a point the code finds is the target's geoscape position lifted to (x, y, 0), or where the target is after a time t with 0 < t <= the search's upper bound |
| Navigation.InterceptionCorrectedOnTargetRoute | Navigation.cs:103-118 | a point the corrected interception finds is the target's normal vector, or where the target is after such a time t |
| Navigation.StaticTargetInterception | Navigation.cs:103-118 | as written, for a target with speed 0: when the interception returns a point p, the search returned a value; a time > 0 makes p the target's own normal vector, and NaN or a time <= 0 makes p its geoscape position lifted to (x, y, 0) |
| Navigation.StaticTargetInterceptionCorrected | Navigation.cs:103-118 | with the corrected fallback, when the interception returns a point p for a target with speed 0, p is the target's own normal vector |
| Navigation.ReachedStoppedTargetFails | Navigation.cs:141-143 | as written, an interceptor with positive speed at distance 0 from a target with speed 0 gets the same-sign error: the equation of lines 103-106 is then f(t) = t, and Sign(0) = Sign(upper) = +1 |
| Navigation.ReachedStoppedTargetFailsCorrected | Navigation.cs:141-143 | the corrected interception fails with the same-sign error too when the great-circle distance to a target with speed 0 is 0 |
| Navigation.GetInterceptionPoint | Navigation.cs:86-125 | the method returns InterceptionPoint, the code as written: the goal read error, a bisection error, the lifted fallback when the time is NaN or <= 0, or else the target's position tarSpeed * t along its arc |
| Navigation.HasTarget | Navigation.cs:44-46 | the entity has a goal and the goal has a position; GetTargetPosition's contract uses it |
| Navigation.Intercepts | Navigation.cs:48 | the goal can move and is not heading for the entity; GetTargetPosition's contract uses it |
| Navigation.GetTargetPosition | Navigation.cs:42-52 | with no goal, or a goal without a position, the entity's own position. With a goal that can move and is not heading for the entity, the interception point. Otherwise the goal's position. Only the interception case can fail |
| GreatCircle.NorthPoleY | GreatCircleArc.cs:21 | the geoscape y of latitude 90; NorthPoleYValue gives its value |
| GreatCircle.NorthPoleYValue | GreatCircleArc.cs:21 | the north pole's geoscape y, GCSToGeoscape((90, 0)).y, is 943.43 for every width |
| GreatCircle.ClampToNorthPole | GreatCircleArc.cs:32-35 | the clamped y is at most the north pole's, x never changes, a y at or below the pole is unchanged, and a y above it becomes the pole's |
| GreatCircle.GreatCircleArc.constructor | GreatCircleArc.cs:28-38 | a new arc's Start and End are the given geoscape positions with y clamped to the north pole's |
| GreatCircle.GreatCircleArc.Update | GreatCircleArc.cs:84-87 | Start becomes the entity's position, with no clamping. End becomes the given target, or without one the goal's position. Reading the goal of an entity with none fails after Start has been set |
| GreatCircle.GreatCircleArc.MoveDistanceFrom | GreatCircleArc.cs:160-168 | the position times cos of the angle plus the direction of travel times its sin; MoveZeroDistance states its value at distance 0 |
| GreatCircle.GreatCircleArc.PlaneNormal | GreatCircleArc.cs:163-165 | the start's normal vector crossed with the end's; MoveDirectionTangent uses it |
| GreatCircle.GreatCircleArc.DirectionOfTravel | GreatCircleArc.cs:166 | the plane's normal crossed with the position; MoveDirectionTangent states its properties |
| GreatCircle.MoveZeroDistance | GreatCircleArc.cs:160-167 | given cos 0 = 1 and sin 0 = 0, moving distance 0 along an arc from any position gives that position |
| GreatCircle.MoveDirectionTangent | GreatCircleArc.cs:163-166 | the direction MoveDistanceFrom moves in is perpendicular to the position and to the arc's plane normal, so it lies in the arc's plane |
| GreatCircle.ArcCache.constructor | GreatCircleArc.cs:13-14 | the table starts empty |
| GreatCircle.ArcCache.GetArc | GreatCircleArc.cs:60-77 | afterwards the table holds the entity's ID and the result is its entry. If the entry's End (within tolerance) equals the target, nothing changes. Otherwise that same arc gets Start = entity position and End = target, and the keys stay the same. A missing entry gets a new clamped arc under the ID. No other entry changes |
| GreatCircle.ArcCache.GetArcToGoal | GreatCircleArc.cs:51-55 | with a goal, GetArc towards the goal's position, with the same outcomes; without a goal, the goal read error and no change to the table |

## Left out

- MoveEntity (Navigation.cs:11-36) is not modelled. It writes the new position into the host game's store, and its call to GreatCircleArc.Update(entity, Vector3, Vector3) has no counterpart in GreatCircleArc.cs.
- TowardsHeadingDistance and DirectionAt are not modelled. Their results are nonzero-distance trigonometry with nothing exact to state.
- The Vector2 overload of MoveDistanceFrom, NormalToGCS and NormalToGeoscape are not modelled. They go through atan2 and have no exact property over uninterpreted trigonometry.
- The rendering parts of GreatCircleArc are not modelled: Draw, the pulse lines redrawn in Update, FindPulseLineController and the SetActive calls.
- The patches, the mod bootstrap, the logging and the test file are not modelled. They are host glue, and the test only logs a scenario.
- TryGetArc, called from a patch, does not exist in GreatCircleArc.cs, so it is not modelled.
- All values are exact reals. Single-precision rounding, infinities and NaN arithmetic are not modelled, except that the bisection's NaN result is None.
- sin, cos, atan2 and sqrt have no values beyond the premises each lemma names.
- The entity accessors and AircraftSystem.ToKPH are inputs. IsLinkedToGoal is defined from them: a target is linked when its goal has the entity's ID.
- The Debug.Log calls of GetInterceptionPoint are not modelled.
- Radius is in metres while callers pass distances in km, and the degrees from AngleFromDistance are fed to sin and cos as if they were radians. Both are kept as the source has them.
- The comment at Navigation.cs:101-102 says f(0) is positive. It is minus a distance over the speed, as InterceptionEquationAtZero states.
- InterceptionEquationAtZero: the sign of f(0) needs the distance to be non-negative. That holds when atan2 of a non-negative first argument is non-negative, which uninterpreted atan2 does not promise, so the sign is stated under that premise.
- GetInterceptionPoint: requires a non-zero interceptor speed because the source divides by it in the upper bound. In single precision a speed of 0 makes the upper bound +Infinity, and f is then negative or NaN at both bounds. Mathf.Sign gives -1 for both, so the source throws the same-sign error. That path is not modelled.
- InterceptionPoint, InterceptionPointCorrected and GetTargetPosition: the same non-zero speed requirement, for an entity that intercepts its goal.
- Arcs is keyed by the entity ID alone, as GreatCircleArc.cs:13-14 has it.
- The cache is not modelled as a static field. It is an ArcCache object passed to its methods.

## Findings

| source | as written | input that shows it | evidently intended | confidence | as-written member | corrected member |
|---|---|---|---|---|---|---|
| Navigation.cs:109-113 | when no interception time is found, `return target.Position();` returns the geoscape Vector2, which the implicit conversion turns into (x, y, 0) | a target at the origin correction (897, 464) gives (897, 464, 0), whose squared length is not 1 | the target's current position as a normal vector, GeoscapeToNormal(target.Position()), like every other result of the method | not executed | Navigation.FallbackOffSphere | Navigation.FallbackCorrectedOnSphere |
| Geometry.cs:22, 93-98 | `Norm(Vector3.Cross(a, b))` converts the cross product to a Vector2 first, so it takes the norm of its x and y only | a = (1, 0, 0), b = (0, 1, 0): the cross product is (0, 0, 1), so the cross term is 0; with dot product 0 the angle is atan2(0, 0) and not 90 degrees | the norm of the whole cross product, the sine of the central angle | not executed | Geometry.EquatorAngleAsWritten | Geometry.AngleTermsOnUnitCircle |

The members named after the source's functions model the code as written:
- AngleBetweenPoints and DistanceBetweenPoints.
- InterceptionEquation, NoInterceptionFallback and InterceptionPoint.
- GetInterceptionPoint and GetTargetPosition.

ReachedStoppedTargetFails shows a consequence of the code as written. An interceptor that has
reached a target that can move but has speed 0 gets the same-sign error from BisectionMethod.
With the x,y-only cross term, this also happens for two equator points less than 90 degrees apart.
The corrected chain has the same error at great-circle distance 0, as
ReachedStoppedTargetFailsCorrected states. The model does not say what the code should return
then.

The corrected chain sits beside them under its own names, with its own lemmas:
- CentralAngle and GreatCircleDistance.
- InterceptionEquationCorrected, NoInterceptionFallbackCorrected and InterceptionPointCorrected.
- The lemmas EquatorCentralAngle, AngleTermsOnUnitCircle, InterceptionCorrectedOnTargetRoute and StaticTargetInterceptionCorrected.
