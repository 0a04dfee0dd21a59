/** Server attributes and the two ways their value is set: the ordinary
    `setValue`, which reports a change back to the client, and `setValue`
    run inside `silently`, which does not. */
module Attributes {
  import opened Wrappers
  import opened Values
  import opened Commands

  /** A server attribute. `silent` is true exactly while a `silently` scope
      runs on it; `baseValue` is the last value both peers agreed on. */
  datatype Attribute = Attribute(
    id: AttributeId,
    propertyName: string,
    qualifier: Option<string>,
    value: Value,
    baseValue: Value,
    silent: bool)

  /** The observable contract of an attribute's `setValue`: the value is
      stored, and an attribute that is not silent reports a real change to
      the client by appending a value-change command to the response. */
  function SetValue(a: Attribute, v: Value, response: seq<Command>): (r: (Attribute, seq<Command>))
    ensures r.0 == a.(value := v)
    ensures a.silent || ObjectsEquals(a.value, v) ==> r.1 == response
    ensures !a.silent && !ObjectsEquals(a.value, v) ==>
      r.1 == response + [ValueChanged(ValueChangedCommand(a.id, a.value, v))]
  {
    var echo := if !a.silent && !ObjectsEquals(a.value, v)
      then [ValueChanged(ValueChangedCommand(a.id, a.value, v))]
      else [];
    (a.(value := v), response + echo)
  }

  /** `attribute.silently(() -> attribute.setValue(v))`: the flag is raised,
      the value is set, and the flag is put back as it was. The value is
      applied, nothing is echoed, and no other field changes. */
  function Silently(a: Attribute, v: Value, response: seq<Command>): (r: (Attribute, seq<Command>))
    ensures r.0 == a.(value := v)
    ensures r.0.silent == a.silent
    ensures r.1 == response
  {
    var (inside, out) := SetValue(a.(silent := true), v, response);
    (inside.(silent := a.silent), out)
  }

  /** Without the `silently` scope, applying a different value to an idle
      attribute would echo it back: the scope is what breaks the loop. */
  lemma SetValueWithoutSilentlyEchoes(a: Attribute, v: Value, response: seq<Command>)
    requires !a.silent && a.value != v
    ensures SetValue(a, v, response).1 != response
    ensures Silently(a, v, response).1 == response
  {
    assert |SetValue(a, v, response).1| == |response| + 1;
  }
}
