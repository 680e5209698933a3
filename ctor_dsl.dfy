/** The unsorted filter lists a query is built from (`ctor_dsl`). */
module CtorDsl {
  import opened World

  /** One predicate on one component. */
  datatype AndFilter =
    | With(id: ComponentId)
    | Without(id: ComponentId)
    | Changed(id: ComponentId)
    | Added(id: ComponentId)

  /** A conjunction: all of these must hold. */
  type AndFilters = seq<AndFilter>

  /** A disjunction of conjunctions. */
  type OrFilters = seq<AndFilters>
}
