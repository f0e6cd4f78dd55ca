/**
 * The great circle arc an entity follows, from a start to an end position on the geoscape, and
 * the table of arcs kept per entity ID.
 */
module GreatCircle {
  import opened Wrappers
  import opened UnityMath
  import opened Geometry
  import opened Host

  /** The geoscape y coordinate of the north pole, latitude 90. */
  function NorthPoleY(width: real): real
  {
    GCSToGeoscape(Vector2(90.0, 0.0), width).y
  }

  /** The north pole's y coordinate does not depend on the map's width: it is 90 * 5.327 + 464. */
  lemma NorthPoleYValue(width: real)
    ensures NorthPoleY(width) == 943.43
  {
  }

  /** A geoscape position with its y lowered to the north pole's when it lies beyond it. */
  function ClampToNorthPole(p: Vector2, width: real): (r: Vector2)
    ensures r.x == p.x
    ensures r.y <= NorthPoleY(width)
    ensures p.y <= NorthPoleY(width) ==> r == p
    ensures p.y > NorthPoleY(width) ==> r.y == NorthPoleY(width)
  {
    if p.y > NorthPoleY(width) then Vector2(p.x, NorthPoleY(width)) else p
  }

  class GreatCircleArc {
    var Start: Vector2
    var End: Vector2

    /** Create an arc between two geoscape positions, first making sure neither lies beyond the north pole. */
    constructor (startGeoscape: Vector2, endGeoscape: Vector2, width: real)
      ensures Start == ClampToNorthPole(startGeoscape, width)
      ensures End == ClampToNorthPole(endGeoscape, width)
    {
      var s, e := startGeoscape, endGeoscape;
      if s.y > NorthPoleY(width) {
        s := s.(y := NorthPoleY(width));
      }
      if e.y > NorthPoleY(width) {
        e := e.(y := NorthPoleY(width));
      }
      Start := s;
      End := e;
    }

    /**
     * Move the arc's start to the entity's position and its end to `targetPosition`, or to the
     * entity's goal's position when no target is given. No clamping is done here. Reading the goal
     * of an entity without one fails after the start has already been moved.
     */
    method Update(entity: Entity, targetPosition: Option<Vector2>) returns (r: Result<(), HostError>)
      modifies this
      ensures Start == entity.position
      ensures targetPosition.Some? ==> r.Success? && End == targetPosition.value
      ensures targetPosition.None? && entity.goal.Some? ==> r.Success? && End == entity.goal.value.position
      ensures targetPosition.None? && entity.goal.None? ==> r == Failure(NoGoal) && End == old(End)
    {
      Start := entity.position;
      if targetPosition.Some? {
        End := targetPosition.value;
      } else if entity.goal.Some? {
        End := entity.goal.value.position;
      } else {
        return Failure(NoGoal);
      }
      return Success(());
    }

    /**
     * The position reached from `position` (a normal vector) after `distanceKm` along this arc's
     * great circle. The angle is AngleFromDistance's, in degrees, fed to sin and cos as is.
     */
    function MoveDistanceFrom(position: Vector3, distanceKm: real, width: real, trig: Trig): Vector3
      reads this
      requires width != 0.0
    {
      var angle := AngleFromDistance(distanceKm);
      var direction := DirectionOfTravel(position, width, trig);
      position.Scale(trig.cos(angle)).Plus(direction.Scale(trig.sin(angle)))
    }

    /** The normal of the plane of this arc's great circle: the start's normal vector crossed with the end's. */
    function PlaneNormal(width: real, trig: Trig): Vector3
      reads this
      requires width != 0.0
    {
      GeoscapeToNormal(Start, width, trig).Cross(GeoscapeToNormal(End, width, trig))
    }

    /** The direction MoveDistanceFrom moves `position` in: the plane's normal crossed with the position. */
    function DirectionOfTravel(position: Vector3, width: real, trig: Trig): Vector3
      reads this
      requires width != 0.0
    {
      PlaneNormal(width, trig).Cross(position)
    }
  }

  /** Moving no distance along an arc stays where one is. */
  lemma MoveZeroDistance(arc: GreatCircleArc, position: Vector3, width: real, trig: Trig)
    requires width != 0.0
    requires trig.AtZero()
    ensures arc.MoveDistanceFrom(position, 0.0, width, trig) == position
  {
    assert AngleFromDistance(0.0) == 0.0;
  }

  /** The direction MoveDistanceFrom moves in is tangent to the sphere at the position and in the arc's plane. */
  lemma MoveDirectionTangent(arc: GreatCircleArc, position: Vector3, width: real, trig: Trig)
    requires width != 0.0
    ensures arc.DirectionOfTravel(position, width, trig).Dot(position) == 0.0
    ensures arc.DirectionOfTravel(position, width, trig).Dot(arc.PlaneNormal(width, trig)) == 0.0
  {
    CrossPerpendicular(arc.PlaneNormal(width, trig), position);
  }

  /** The arcs entities follow, by entity ID: the static Arcs dictionary. */
  class ArcCache {
    var Arcs: map<int, GreatCircleArc>

    /** No two entities share an arc object: every arc is created for one entity ID. */
    ghost predicate Valid()
      reads this
    {
      forall i, j :: i in Arcs && j in Arcs && i != j ==> Arcs[i] != Arcs[j]
    }

    constructor ()
      ensures Valid() && Arcs == map[]
    {
      Arcs := map[];
    }

    /**
     * Return the arc `entity` follows towards `targetPosition`: the cached arc when its end is
     * (within the engine's Vector2 tolerance) the target, the cached arc moved to run from the
     * entity's position to the target otherwise, or a new arc stored under the entity's ID when
     * there is none.
     */
    method GetArc(entity: Entity, targetPosition: Vector2, width: real) returns (arc: GreatCircleArc)
      requires Valid()
      modifies this, Arcs.Values
      ensures Valid()
      ensures entity.id in Arcs && arc == Arcs[entity.id]
      ensures entity.id in old(Arcs) ==> Arcs == old(Arcs)
      ensures entity.id in old(Arcs) && old(Arcs[entity.id].End).ApproxEquals(targetPosition)
          ==> arc.Start == old(Arcs[entity.id].Start) && arc.End == old(Arcs[entity.id].End)
      ensures entity.id in old(Arcs) && !old(Arcs[entity.id].End).ApproxEquals(targetPosition)
          ==> arc.Start == entity.position && arc.End == targetPosition
      ensures entity.id !in old(Arcs)
          ==> && fresh(arc) && Arcs == old(Arcs)[entity.id := arc]
              && arc.Start == ClampToNorthPole(entity.position, width)
              && arc.End == ClampToNorthPole(targetPosition, width)
      ensures forall id :: id in old(Arcs) && id != entity.id ==>
                id in Arcs && Arcs[id] == old(Arcs[id])
                && Arcs[id].Start == old(Arcs[id].Start) && Arcs[id].End == old(Arcs[id].End)
    {
      if entity.id in Arcs {
        arc := Arcs[entity.id];
        if !arc.End.ApproxEquals(targetPosition) {
          var _ := arc.Update(entity, Some(targetPosition));
        }
      } else {
        arc := new GreatCircleArc(entity.position, targetPosition, width);
        Arcs := Arcs[entity.id := arc];
      }
    }

    /** GetArc towards the entity's goal's position; reading the goal of an entity without one fails and changes nothing. */
    method GetArcToGoal(entity: Entity, width: real) returns (r: Result<GreatCircleArc, HostError>)
      requires Valid()
      modifies this, Arcs.Values
      ensures Valid()
      ensures entity.goal.None? ==> r == Failure(NoGoal) && Arcs == old(Arcs)
      ensures entity.goal.None? ==> forall id :: id in Arcs ==> Arcs[id].Start == old(Arcs[id].Start) && Arcs[id].End == old(Arcs[id].End)
      ensures entity.goal.Some? ==> r.Success? && entity.id in Arcs && r.value == Arcs[entity.id]
      ensures entity.goal.Some? && entity.id in old(Arcs) ==> Arcs == old(Arcs)
      ensures entity.goal.Some? && entity.id in old(Arcs) && old(Arcs[entity.id].End).ApproxEquals(entity.goal.value.position)
          ==> r.value.Start == old(Arcs[entity.id].Start) && r.value.End == old(Arcs[entity.id].End)
      ensures entity.goal.Some? && entity.id in old(Arcs) && !old(Arcs[entity.id].End).ApproxEquals(entity.goal.value.position)
          ==> r.value.Start == entity.position && r.value.End == entity.goal.value.position
      ensures entity.goal.Some? && entity.id !in old(Arcs)
          ==> && fresh(r.value) && Arcs == old(Arcs)[entity.id := r.value]
              && r.value.Start == ClampToNorthPole(entity.position, width)
              && r.value.End == ClampToNorthPole(entity.goal.value.position, width)
      ensures forall id :: id in old(Arcs) && id != entity.id ==>
                id in Arcs && Arcs[id] == old(Arcs[id])
                && Arcs[id].Start == old(Arcs[id].Start) && Arcs[id].End == old(Arcs[id].End)
    {
      if entity.goal.None? {
        return Failure(NoGoal);
      }
      var arc := GetArc(entity, entity.goal.value.position, width);
      return Success(arc);
    }
  }
}
