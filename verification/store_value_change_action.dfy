/** The server action that stores value changes sent by the client.

    Handling a value-change command looks the attribute up by id. When it
    exists, its value is set to the command's new value inside a
    `silently` scope, so the change is not echoed to the client; a current
    value that differs from the command's old value only adds a warning
    (the client wins). When it does not exist, an error is logged and the
    command is dropped. */
module StoreValueChangeAction {
  import opened Wrappers
  import opened Values
  import opened Commands
  import opened Attributes
  import opened ModelStore
  import opened ActionRegistry

  /** What the handler logs. */
  datatype LogEntry =
    /** The warning for a command whose old value differs from the current one. */
    | StaleOldValue(attributeId: AttributeId, newValue: Value, commandOldValue: Value, currentValue: Value)
    /** The error for a command naming no attribute of the store. */
    | AttributeNotFound(attributeId: AttributeId, oldValue: Value, newValue: Value)

  /** The store after the command, what was logged, and the response. */
  datatype HandleResult = HandleResult(store: Store, log: seq<LogEntry>, response: seq<Command>)

  /** `handleCommand(command, response)` of the registered handler. */
  function Handle(store: Store, cmd: ValueChangedCommand, response: seq<Command>): (r: HandleResult)
    ensures r.store.Keys == store.Keys
    ensures r.response == response
    ensures cmd.attributeId in store ==>
      r.store[cmd.attributeId] == store[cmd.attributeId].(value := cmd.newValue)
    ensures forall id :: id in store && id != cmd.attributeId ==> r.store[id] == store[id]
    ensures |r.log| <= 1
  {
    match FindAttributeById(store, cmd.attributeId)
    case Some(attribute) =>
      var warning := if !ObjectsEquals(attribute.value, cmd.oldValue)
        then [StaleOldValue(cmd.attributeId, cmd.newValue, cmd.oldValue, attribute.value)]
        else [];
      var (updated, out) := Silently(attribute, cmd.newValue, response);
      HandleResult(store[cmd.attributeId := updated], warning, out)
    case None =>
      HandleResult(store, [AttributeNotFound(cmd.attributeId, cmd.oldValue, cmd.newValue)], response)
  }

  /** Client wins: a stale old value changes nothing but the log. The value
      is applied either way, and a warning is logged exactly when the
      current value differs (null-safely) from the command's old value. */
  lemma HandleRemoteWins(store: Store, cmd: ValueChangedCommand, response: seq<Command>)
    requires cmd.attributeId in store
    ensures Handle(store, cmd, response).store[cmd.attributeId].value == cmd.newValue
    ensures var current := store[cmd.attributeId].value;
      Handle(store, cmd, response).log ==
        if current == cmd.oldValue then []
        else [StaleOldValue(cmd.attributeId, cmd.newValue, cmd.oldValue, current)]
  {
  }

  /** A command for an unknown attribute is dropped: the store and the
      response stay as they were and exactly one error is logged. */
  lemma HandleMissingAttribute(store: Store, cmd: ValueChangedCommand, response: seq<Command>)
    requires cmd.attributeId !in store
    ensures Handle(store, cmd, response) ==
      HandleResult(store, [AttributeNotFound(cmd.attributeId, cmd.oldValue, cmd.newValue)], response)
  {
  }

  /** Handling keeps each of the store's invariants: every attribute stays
      indexed under its own id, and a flag that was down before the
      `silently` scope is back down afterwards. */
  lemma HandlePreservesInvariants(store: Store, cmd: ValueChangedCommand, response: seq<Command>)
    ensures WellFormed(store) ==> WellFormed(Handle(store, cmd, response).store)
    ensures Quiescent(store) ==> Quiescent(Handle(store, cmd, response).store)
  {
  }

  /** Idempotence of intent: handling the same command a second time leaves
      the store as the first time left it. The second run echoes nothing;
      it logs a warning exactly when the command's old and new values
      differ, or repeats the error when the attribute does not exist. */
  lemma HandleIdempotentIntent(store: Store, cmd: ValueChangedCommand, response: seq<Command>)
    ensures var first := Handle(store, cmd, response);
      var second := Handle(first.store, cmd, first.response);
      && second.store == first.store
      && second.response == response
      && (cmd.attributeId in store ==>
            second.log == if cmd.newValue == cmd.oldValue then []
                          else [StaleOldValue(cmd.attributeId, cmd.newValue, cmd.oldValue, cmd.newValue)])
      && (cmd.attributeId !in store ==> second.log == first.log)
  {
  }

  /** `registerIn(registry)`: installs the value-change handler under the
      value-change command kind; every other kind keeps its handler. */
  function RegisterIn(reg: Registry): (r: Registry)
    ensures r.Keys == reg.Keys + {ValueChangedKind}
    ensures forall c :: Lookup(r, ValueChanged(c)) == Some(StoreValueChange)
    ensures forall k :: k in reg && k != ValueChangedKind ==> k in r && r[k] == reg[k]
    ensures WellTyped(reg) ==> WellTyped(r)
  {
    Register(reg, ValueChangedKind, StoreValueChange)
  }

  /** Where an inbound command ends up. */
  datatype Delivery =
    /** No handler is registered for the command's kind: reported and dropped. */
    | NoHandler(kind: CommandKind)
    /** A handler outside this model takes the command. */
    | Delegated(handler: Handler)
    /** The value-change handler ran. */
    | Handled(result: HandleResult)

  /** Dispatching an inbound command through the registry. */
  function Dispatch(reg: Registry, store: Store, cmd: Command, response: seq<Command>): (r: Delivery)
    ensures r.NoHandler? <==> cmd.Kind() !in reg
    ensures r.NoHandler? ==> r.kind == cmd.Kind()
    ensures r.Handled? ==> cmd.ValueChanged? && reg[ValueChangedKind] == StoreValueChange
    ensures cmd.ValueChanged? && cmd.Kind() in reg && reg[cmd.Kind()] == StoreValueChange ==>
      r == Handled(Handle(store, cmd.change, response))
    ensures r.Delegated? ==> cmd.Kind() in reg && r.handler == reg[cmd.Kind()]
    ensures WellTyped(reg) && r.Delegated? ==> r.handler.Unmodelled? && r.handler.kind == cmd.Kind()
  {
    match Lookup(reg, cmd)
    case None => NoHandler(cmd.Kind())
    case Some(StoreValueChange) =>
      if cmd.ValueChanged? then Handled(Handle(store, cmd.change, response))
      else Delegated(StoreValueChange)
    case Some(h) => Delegated(h)
  }

  /** After `registerIn`, every value-change command reaches this handler,
      whatever was registered before. */
  lemma RegisteredHandlerReceivesValueChanges(reg: Registry, store: Store, c: ValueChangedCommand, response: seq<Command>)
    ensures Dispatch(RegisterIn(reg), store, ValueChanged(c), response) == Handled(Handle(store, c, response))
  {
  }

  /** Handling a sequence of value-change commands in the order received.
      A command for an unknown attribute is dropped and the rest continue. */
  function HandleAll(store: Store, cmds: seq<ValueChangedCommand>, response: seq<Command>): (r: HandleResult)
    ensures r.store.Keys == store.Keys
    ensures r.response == response
    ensures |r.log| <= |cmds|
    ensures WellFormed(store) ==> WellFormed(r.store)
    ensures Quiescent(store) ==> Quiescent(r.store)
    decreases |cmds|
  {
    if |cmds| == 0 then HandleResult(store, [], response)
    else
      var before := HandleAll(store, cmds[..|cmds| - 1], response);
      var last := Handle(before.store, cmds[|cmds| - 1], before.response);
      HandleResult(last.store, before.log + last.log, last.response)
  }

  /** The new value of the last command in `cmds` that targets `id`, if any. */
  function LastNewValue(cmds: seq<ValueChangedCommand>, id: AttributeId): Option<Value>
    decreases |cmds|
  {
    if |cmds| == 0 then None
    else if cmds[|cmds| - 1].attributeId == id then Some(cmds[|cmds| - 1].newValue)
    else LastNewValue(cmds[..|cmds| - 1], id)
  }

  /** The value an attribute holds after a batch: the last new value sent
      for it, or its old value when no command targets it. */
  function ValueAfter(store: Store, cmds: seq<ValueChangedCommand>, id: AttributeId): Value
    requires id in store
  {
    match LastNewValue(cmds, id)
    case Some(v) => v
    case None => store[id].value
  }

  /** Last write wins: after a batch, every attribute holds the new value of
      the last command that targets it, and keeps its value when none does.
      Only values change; every other field of every attribute is kept. */
  lemma {:induction false} HandleAllLastWriteWins(store: Store, cmds: seq<ValueChangedCommand>, response: seq<Command>, id: AttributeId)
    requires id in store
    ensures HandleAll(store, cmds, response).store[id] == store[id].(value := ValueAfter(store, cmds, id))
    decreases |cmds|
  {
    if |cmds| > 0 {
      var prefix := cmds[..|cmds| - 1];
      HandleAllLastWriteWins(store, prefix, response, id);
      var before := HandleAll(store, prefix, response);
      var last := cmds[|cmds| - 1];
      if last.attributeId != id {
        assert LastNewValue(cmds, id) == LastNewValue(prefix, id);
      }
    }
  }

  /** The not-found errors of a log, in the order they were logged. */
  function NotFoundErrors(log: seq<LogEntry>): seq<LogEntry>
    decreases |log|
  {
    if |log| == 0 then []
    else NotFoundErrors(log[..|log| - 1])
         + (if log[|log| - 1].AttributeNotFound? then [log[|log| - 1]] else [])
  }

  /** The errors a batch must log: one per command naming an id outside
      `ids`, in command order. */
  function ExpectedNotFound(ids: set<AttributeId>, cmds: seq<ValueChangedCommand>): seq<LogEntry>
    decreases |cmds|
  {
    if |cmds| == 0 then []
    else
      var c := cmds[|cmds| - 1];
      ExpectedNotFound(ids, cmds[..|cmds| - 1])
        + (if c.attributeId !in ids then [AttributeNotFound(c.attributeId, c.oldValue, c.newValue)] else [])
  }

  lemma {:induction false} NotFoundErrorsAppend(a: seq<LogEntry>, b: seq<LogEntry>)
    ensures NotFoundErrors(a + b) == NotFoundErrors(a) + NotFoundErrors(b)
    decreases |b|
  {
    if |b| == 0 {
      assert a + b == a;
    } else {
      assert (a + b)[..|a + b| - 1] == a + b[..|b| - 1];
      NotFoundErrorsAppend(a, b[..|b| - 1]);
    }
  }

  /** No command of a batch is lost silently: every command naming an
      unknown attribute logs its not-found error, in command order, and no
      other not-found error is logged. */
  lemma {:induction false} HandleAllLogsMissing(store: Store, cmds: seq<ValueChangedCommand>, response: seq<Command>)
    ensures NotFoundErrors(HandleAll(store, cmds, response).log) == ExpectedNotFound(store.Keys, cmds)
    decreases |cmds|
  {
    if |cmds| > 0 {
      var prefix := cmds[..|cmds| - 1];
      HandleAllLogsMissing(store, prefix, response);
      var before := HandleAll(store, prefix, response);
      var last := Handle(before.store, cmds[|cmds| - 1], before.response);
      NotFoundErrorsAppend(before.log, last.log);
      assert NotFoundErrors(last.log)
        == (if cmds[|cmds| - 1].attributeId !in store.Keys
            then [AttributeNotFound(cmds[|cmds| - 1].attributeId, cmds[|cmds| - 1].oldValue, cmds[|cmds| - 1].newValue)]
            else []);
    }
  }

  /** Handling one more command of the batch extends the fold by one step. */
  lemma HandleAllStep(store: Store, cmds: seq<ValueChangedCommand>, i: nat, response: seq<Command>)
    requires i < |cmds|
    ensures var before := HandleAll(store, cmds[..i], response);
      var step := Handle(before.store, cmds[i], before.response);
      HandleAll(store, cmds[..i + 1], response) == HandleResult(step.store, before.log + step.log, step.response)
  {
    assert cmds[..i + 1][..i] == cmds[..i];
  }

  /** The batch handler as a loop over the commands. */
  method HandleBatch(store: Store, cmds: seq<ValueChangedCommand>, response: seq<Command>) returns (r: HandleResult)
    ensures r == HandleAll(store, cmds, response)
    ensures r.store.Keys == store.Keys
    ensures r.response == response
    ensures forall id :: id in store ==> r.store[id] == store[id].(value := ValueAfter(store, cmds, id))
  {
    r := HandleResult(store, [], response);
    var i := 0;
    while i < |cmds|
      invariant 0 <= i <= |cmds|
      invariant r == HandleAll(store, cmds[..i], response)
    {
      var step := Handle(r.store, cmds[i], r.response);
      HandleAllStep(store, cmds, i, response);
      r := HandleResult(step.store, r.log + step.log, step.response);
      i := i + 1;
    }
    assert cmds[..i] == cmds;
    forall id | id in store
      ensures r.store[id] == store[id].(value := ValueAfter(store, cmds, id))
    {
      HandleAllLastWriteWins(store, cmds, response, id);
    }
  }
}
