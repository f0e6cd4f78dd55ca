/**
 * Coordinate transformations between the geoscape (the strategic map's own coordinates), the
 * geographic coordinate system (latitude, longitude in degrees) and normal vectors on the unit
 * sphere, and the angle and distance between two points on the sphere.
 *
 * A GCS position is a Vector2 whose x is the latitude and whose y is the longitude.
 * `width` is the width of the geoscape's playable bounds, a constant of the host game.
 */
module Geometry {
  import opened UnityMath

  /** Radius of the Earth, in metres. */
  const Radius: real := 6371000.0

  /** The geoscape position of latitude 0, longitude 0 ("Null Island"). */
  const OriginCorrection: Vector2 := Vector2(897.0, 464.0)

  /** Geoscape units per degree of latitude, an estimate. */
  const LatitudeScale: real := 5.327

  function DegToRad(degrees: real): real
  {
    degrees * PI / 180.0
  }

  function RadToDeg(radians: real): real
  {
    radians / PI * 180.0
  }

  function Square(value: real): real
  {
    value * value
  }

  /** Euclidean norm of a Vector2. */
  function Norm(v: Vector2, trig: Trig): real
  {
    trig.sqrt(Square(v.x) + Square(v.y))
  }

  /** Degrees and radians convert into each other without loss, both ways. */
  lemma AngleUnitsRoundTrip(d: real, r: real)
    ensures RadToDeg(DegToRad(d)) == d
    ensures DegToRad(RadToDeg(r)) == r
  {
  }

  /** The geographic coordinates of a map point: latitude from y, longitude from x, measured from Null Island. */
  function GeoscapeToGCS(positionGeoscape: Vector2, width: real): Vector2
    requires width != 0.0
  {
    var p := positionGeoscape.Minus(OriginCorrection);
    var longitude := p.x / width * 360.0;
    var latitude := p.y / LatitudeScale;
    Vector2(latitude, longitude)
  }

  /** The map point of a (latitude, longitude) pair: the inverse affine map, shifted back by the origin correction. */
  function GCSToGeoscape(positionGCS: Vector2, width: real): Vector2
  {
    var x := positionGCS.y * width / 360.0;
    var y := positionGCS.x * LatitudeScale;
    Vector2(x, y).Plus(OriginCorrection)
  }

  /** The projection pair is exact: geoscape to GCS and back is the identity. */
  lemma GCSRoundTrip(p: Vector2, width: real)
    requires width != 0.0
    ensures GCSToGeoscape(GeoscapeToGCS(p, width), width) == p
  {
    var q := p.Minus(OriginCorrection);
    assert q.x / width * 360.0 * width / 360.0 == q.x by {
      assert q.x / width * width == q.x;
    }
  }

  /** The projection pair is exact the other way round too: GCS to geoscape and back is the identity. */
  lemma GeoscapeRoundTrip(c: Vector2, width: real)
    requires width != 0.0
    ensures GeoscapeToGCS(GCSToGeoscape(c, width), width) == c
  {
    var g := GCSToGeoscape(c, width);
    assert g.x - OriginCorrection.x == c.y * width / 360.0;
    assert c.y * width / 360.0 / width * 360.0 == c.y by {
      assert c.y * width / width == c.y;
    }
  }

  /** Null Island: the origin correction is latitude 0, longitude 0, whatever the map's width. */
  lemma NullIsland(width: real)
    requires width != 0.0
    ensures GeoscapeToGCS(OriginCorrection, width) == Vector2(0.0, 0.0)
    ensures GCSToGeoscape(Vector2(0.0, 0.0), width) == OriginCorrection
  {
  }

  /**
   * The axes stay separate: the latitude (the first component) depends on the geoscape y only,
   * the longitude (the second component) on the geoscape x only, and one playable width of x
   * is 360 degrees of longitude.
   */
  lemma AxesSeparate(p: Vector2, q: Vector2, width: real)
    requires width != 0.0
    ensures p.y == q.y ==> GeoscapeToGCS(p, width).x == GeoscapeToGCS(q, width).x
    ensures p.x == q.x ==> GeoscapeToGCS(p, width).y == GeoscapeToGCS(q, width).y
    ensures GeoscapeToGCS(Vector2(p.x + width, p.y), width)
         == Vector2(GeoscapeToGCS(p, width).x, GeoscapeToGCS(p, width).y + 360.0)
  {
    var a := p.x - OriginCorrection.x;
    assert (a + width) / width * 360.0 == a / width * 360.0 + 360.0 by {
      assert (a + width) / width == a / width + width / width;
      assert width / width == 1.0;
    }
  }

  /** Half a playable width east of Null Island is longitude 180, on the equator. */
  lemma AntimeridianOnEquator(width: real)
    requires width != 0.0
    ensures GeoscapeToGCS(Vector2(OriginCorrection.x + width / 2.0, OriginCorrection.y), width) == Vector2(0.0, 180.0)
  {
  }

  /** The point of the unit sphere at a latitude and longitude: x and y in the equator's plane, z towards the north pole. */
  function GCSToNormal(positionGCS: Vector2, trig: Trig): (n: Vector3)
    ensures trig.PythagoreanAt(DegToRad(positionGCS.x)) && trig.PythagoreanAt(DegToRad(positionGCS.y))
            ==> n.SqrMagnitude() == 1.0
  {
    var latitude := DegToRad(positionGCS.x);
    var longitude := DegToRad(positionGCS.y);
    SphericalUnit(trig.sin(latitude), trig.cos(latitude), trig.sin(longitude), trig.cos(longitude));
    Vector3(trig.cos(latitude) * trig.cos(longitude), trig.cos(latitude) * trig.sin(longitude), trig.sin(latitude))
  }

  lemma SphericalUnit(sLat: real, cLat: real, sLon: real, cLon: real)
    ensures sLat * sLat + cLat * cLat == 1.0 && sLon * sLon + cLon * cLon == 1.0 ==>
      Vector3(cLat * cLon, cLat * sLon, sLat).SqrMagnitude() == 1.0
  {
    var v := Vector3(cLat * cLon, cLat * sLon, sLat);
    assert v.SqrMagnitude() == cLat * cLat * (cLon * cLon + sLon * sLon) + sLat * sLat;
  }

  /** The unit-sphere point of a map point, through its geographic coordinates. */
  function GeoscapeToNormal(positionGeoscape: Vector2, width: real, trig: Trig): Vector3
    requires width != 0.0
  {
    GCSToNormal(GeoscapeToGCS(positionGeoscape, width), trig)
  }

  /**
   * The angle between two points as the code computes it. Norm takes a Vector2, so the cross
   * product is converted first and only its x and y count.
   */
  function AngleBetweenPoints(normalA: Vector3, normalB: Vector3, trig: Trig): real
  {
    var crossterm := Norm(normalA.Cross(normalB).XY(), trig);
    var dotterm := normalA.Dot(normalB);
    trig.atan2(crossterm, dotterm)
  }

  /** Both terms the angle is computed from are unchanged when the points are swapped. */
  lemma AngleBetweenPointsSymmetric(a: Vector3, b: Vector3, trig: Trig)
    ensures AngleBetweenPoints(a, b, trig) == AngleBetweenPoints(b, a, trig)
  {
    var c, d := a.Cross(b), b.Cross(a);
    CrossAntiCommutative(a, b);
    assert Square(d.x) == Square(c.x) && Square(d.y) == Square(c.y);
    assert Norm(d.XY(), trig) == Norm(c.XY(), trig);
    assert a.Dot(b) == b.Dot(a);
  }

  /** The normal vectors of latitude 0 at longitudes 0 and 90. */
  const NullIslandNormal: Vector3 := Vector3(1.0, 0.0, 0.0)
  const NinetyEastNormal: Vector3 := Vector3(0.0, 1.0, 0.0)

  /**
   * For two points a quarter of the equator apart, the terms the code feeds to atan2 are (0, 0),
   * not (sin 90, cos 90) = (1, 0): it finds the points 0 apart.
   */
  lemma EquatorAngleAsWritten(trig: Trig)
    requires trig.sqrt(0.0) == 0.0
    requires trig.atan2(0.0, 0.0) == 0.0
    ensures NullIslandNormal.SqrMagnitude() == 1.0 && NinetyEastNormal.SqrMagnitude() == 1.0
    ensures Norm(NullIslandNormal.Cross(NinetyEastNormal).XY(), trig) == 0.0
    ensures NullIslandNormal.Dot(NinetyEastNormal) == 0.0
    ensures AngleBetweenPoints(NullIslandNormal, NinetyEastNormal, trig) == 0.0
    ensures DistanceBetweenPoints(NullIslandNormal, NinetyEastNormal, trig) == 0.0
  {
    assert NullIslandNormal.Cross(NinetyEastNormal).XY() == Vector2(0.0, 0.0);
  }

  /** The central angle between two normal vectors: atan2 of the length of the whole cross product and the dot product. */
  function CentralAngle(normalA: Vector3, normalB: Vector3, trig: Trig): real
  {
    trig.atan2(normalA.Cross(normalB).Magnitude(trig), normalA.Dot(normalB))
  }

  /**
   * For two unit vectors, the cross term and the dot term lie on the unit circle (they are the
   * sine and cosine of the central angle), so atan2 of them is that angle.
   */
  lemma AngleTermsOnUnitCircle(a: Vector3, b: Vector3, trig: Trig)
    requires a.SqrMagnitude() == 1.0 && b.SqrMagnitude() == 1.0
    requires trig.SqrtAt(a.Cross(b).SqrMagnitude())
    ensures Square(a.Cross(b).Magnitude(trig)) + Square(a.Dot(b)) == 1.0
  {
    Lagrange(a, b);
  }

  /** At the quarter-equator pair the central angle's terms are (1, 0), where the code's are (0, 0). */
  lemma EquatorCentralAngle(trig: Trig)
    requires trig.sqrt(1.0) == 1.0
    ensures NullIslandNormal.Cross(NinetyEastNormal).Magnitude(trig) == 1.0
    ensures CentralAngle(NullIslandNormal, NinetyEastNormal, trig) == trig.atan2(1.0, 0.0)
  {
    assert NullIslandNormal.Cross(NinetyEastNormal) == Vector3(0.0, 0.0, 1.0);
  }

  lemma CentralAngleSymmetric(a: Vector3, b: Vector3, trig: Trig)
    ensures CentralAngle(a, b, trig) == CentralAngle(b, a, trig)
  {
    var c, d := a.Cross(b), b.Cross(a);
    CrossAntiCommutative(a, b);
    assert d.SqrMagnitude() == c.SqrMagnitude();
    assert a.Dot(b) == b.Dot(a);
  }

  /** Convert a distance to the angle, in degrees, it spans on the sphere. */
  function AngleFromDistance(distance: real): real
  {
    RadToDeg(distance / Radius)
  }

  /** AngleFromDistance is linear: 0 at 0, additive, and distance / Radius radians expressed in degrees. */
  lemma AngleFromDistanceLinear(d1: real, d2: real)
    ensures AngleFromDistance(0.0) == 0.0
    ensures AngleFromDistance(d1 + d2) == AngleFromDistance(d1) + AngleFromDistance(d2)
    ensures DegToRad(AngleFromDistance(d1)) == d1 / Radius
  {
  }

  /** The distance between two points of the sphere as the code computes it: Radius times AngleBetweenPoints. */
  function DistanceBetweenPoints(normalA: Vector3, normalB: Vector3, trig: Trig): real
  {
    Radius * AngleBetweenPoints(normalA, normalB, trig)
  }

  lemma DistanceSymmetric(a: Vector3, b: Vector3, trig: Trig)
    ensures DistanceBetweenPoints(a, b, trig) == DistanceBetweenPoints(b, a, trig)
  {
    AngleBetweenPointsSymmetric(a, b, trig);
  }

  /** The great-circle distance between two points of the sphere: Radius times the central angle. */
  function GreatCircleDistance(normalA: Vector3, normalB: Vector3, trig: Trig): real
  {
    Radius * CentralAngle(normalA, normalB, trig)
  }

  lemma GreatCircleDistanceSymmetric(a: Vector3, b: Vector3, trig: Trig)
    ensures GreatCircleDistance(a, b, trig) == GreatCircleDistance(b, a, trig)
  {
    CentralAngleSymmetric(a, b, trig);
  }
}
