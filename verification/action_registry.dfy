/** The action registry: which handler applies a command of a given kind.
    One handler per kind; a later registration for a kind replaces the
    earlier one. */
module ActionRegistry {
  import opened Wrappers
  import opened Commands

  /** The handlers a registry can hold. `StoreValueChange` is the handler
      this model defines; `Unmodelled` stands for a handler installed by
      another server action, written for commands of `kind`. */
  datatype Handler = StoreValueChange | Unmodelled(kind: CommandKind, name: string)

  /** The command kind a handler is written for: the type argument `C` of
      its `CommandHandler<C>`. */
  function Accepts(h: Handler): CommandKind {
    match h
    case StoreValueChange => ValueChangedKind
    case Unmodelled(kind, _) => kind
  }

  type Registry = map<CommandKind, Handler>

  /** Every handler is registered under the kind it is written for, as the
      generic signature of `register(Class<C>, CommandHandler<C>)` ensures. */
  ghost predicate WellTyped(reg: Registry) {
    forall k :: k in reg ==> Accepts(reg[k]) == k
  }

  /** `register(kind, handler)`: installs the handler for its kind and
      leaves every other kind as it was. */
  function Register(reg: Registry, kind: CommandKind, h: Handler): (r: Registry)
    requires Accepts(h) == kind
    ensures r.Keys == reg.Keys + {kind}
    ensures r[kind] == h
    ensures forall k :: k in reg && k != kind ==> r[k] == reg[k]
    ensures WellTyped(reg) ==> WellTyped(r)
  {
    reg[kind := h]
  }

  /** The handler a command is dispatched to, if one is registered for its
      kind. In a well-typed registry that handler accepts the command. */
  function Lookup(reg: Registry, cmd: Command): (r: Option<Handler>)
    ensures r.Some? <==> cmd.Kind() in reg
    ensures r.Some? ==> r.value == reg[cmd.Kind()]
    ensures WellTyped(reg) && r.Some? ==> Accepts(r.value) == cmd.Kind()
  {
    if cmd.Kind() in reg then Some(reg[cmd.Kind()]) else None
  }
}
