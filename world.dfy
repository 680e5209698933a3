/**
 * Stand-ins for the entity/component store of bevy_ecs, which the filters are
 * evaluated against: component identifiers, change ticks, archetypes and entities.
 */
module World {
  import opened Prelude

  /** `ComponentId`: a densely allocated index handed out by the store. */
  type ComponentId = nat

  /** `Tick`: a wrapping logical clock value. */
  type Tick = u32

  /** The two ticks the store records per entity and component. */
  datatype ComponentTicks = ComponentTicks(added: Tick, changed: Tick)

  /** `Archetype::components()`: the component ids of an archetype, in no particular order. */
  datatype Archetype = Archetype(components: seq<ComponentId>)

  /** An entity: its archetype and the change ticks looked up by `get_change_ticks_by_id`. */
  datatype EntityCell = EntityCell(archetype: Archetype, ticks: map<ComponentId, ComponentTicks>) {

    /** The store has change ticks for every component of the entity's archetype. */
    predicate Valid() {
      forall id :: id in archetype.components ==> id in ticks
    }
  }

  /**
   * `Tick::is_newer_than(self, last_run, this_run)`. Its definition lives in
   * bevy_ecs, so every caller receives it as a parameter.
   */
  type IsNewerThan = (Tick, Tick, Tick) -> bool
}
