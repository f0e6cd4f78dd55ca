/**
 * The view of the host game's entities that the navigation code reads through accessor calls.
 * Nothing here is computed by the navigation code; these are its inputs.
 */
module Host {
  import opened Wrappers
  import opened UnityMath

  /**
   * An entity of the geoscape: its ID, its position on the geoscape (meaningful when hasPosition),
   * its speed in km/h (AircraftSystem.ToKPH of its speed), whether it is of an archetype that can
   * move, and its goal, the entity it is heading for, if any.
   */
  datatype Entity = Entity(
    id: int,
    hasPosition: bool,
    position: Vector2,
    speed: real,
    canMove: bool,
    goal: Option<Entity>)

  /** A failed host accessor: the goal of an entity that has none was read through `.Value`. */
  datatype HostError = NoGoal

  /** target.IsLinkedToGoal(entity): the target is itself heading for `entity`. */
  predicate IsLinkedToGoal(target: Entity, entity: Entity)
  {
    target.goal.Some? && target.goal.value.id == entity.id
  }
}
