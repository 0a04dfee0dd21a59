/** The server model store, seen through its attribute index: attribute id
    to attribute. */
module ModelStore {
  import opened Wrappers
  import opened Commands
  import opened Attributes

  type Store = map<AttributeId, Attribute>

  /** Every attribute is indexed under its own id. */
  ghost predicate WellFormed(s: Store) {
    forall id :: id in s ==> s[id].id == id
  }

  /** No `silently` scope is open: outside command handling every
      attribute reports its changes. */
  ghost predicate Quiescent(s: Store) {
    forall id :: id in s ==> !s[id].silent
  }

  /** `findAttributeById`: the indexed attribute, or `null`. In a well-formed
      store the attribute found carries the id it was looked up by. */
  function FindAttributeById(s: Store, id: AttributeId): (r: Option<Attribute>)
    ensures r.Some? <==> id in s
    ensures r.Some? ==> r.value == s[id]
    ensures WellFormed(s) && r.Some? ==> r.value.id == id
  {
    if id in s then Some(s[id]) else None
  }
}
