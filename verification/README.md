# Dolphin Platform replication core: value-change handling and list-change events

This project models two pieces of the Dolphin Platform replication engine, which mirrors presentation models between a client and a server by exchanging commands.

1. **The server's `StoreValueChangeAction`.** It registers a handler for `ValueChangedCommand` in the `ActionRegistry`. The handler looks the target attribute up by id in the server model store. If the attribute is found, the handler sets its value to the command's `newValue` inside the attribute's `silently` scope, so the change is not echoed back to the client. If the attribute's current value differs from the command's `oldValue`, the handler logs a warning and applies the new value anyway: the client wins. If no attribute has that id, it logs an error and drops the command. The model is a pure transition from (store, command, response) to (store', log, response'). The store is the model store's attribute index: a map from attribute id to attribute.
2. **`ListChangeEvent.Change` and `ListChangeEvent`.** These are the records an observable list emits after a structural mutation. A change is `(from, to, removedElements)`. Its constructor validates the fields, and it is classified as added, removed or replaced. An event is a source list plus a non-empty sequence of changes. The implementation class itself is not part of this model. Its behaviour is taken from its test class, which pins down the tested cases; the choices where it leaves behaviour open are listed below.

Modules:

- `Wrappers`: `Option` stands for a nullable reference. `Result` stands for a constructor that may throw.
- `Values`: attribute values, and `Objects.equals` as null-safe equality.
- `Commands`: command kinds and commands.
- `Attributes`: server attributes, with the observable contract of `setValue` and `silently`.
- `ModelStore`: the attribute index and its invariants.
- `ActionRegistry`: handler registration and lookup.
- `StoreValueChangeAction`: the handler, its registration, dispatch, and in-order handling of a batch.
- `ListChangeEvent`: changes, events, their constructors and the classification.

## Model

| member | source | states |
|---|---|---|
| Values.ObjectsEquals | remoting/dolphin-remoting-server/src/main/java/org/opendolphin/core/server/action/StoreValueChangeAction.java:38 | Null-safe equality: two nulls are equal; null versus non-null is unequal. For attribute values it coincides with value equality. |
| Attributes.Silently | remoting/dolphin-remoting-server/src/main/java/org/opendolphin/core/server/action/StoreValueChangeAction.java:42-48 | Setting a value inside the `silently` scope stores it, leaves every other field unchanged, restores the silent flag to its prior state, and appends nothing to the response. |
| Attributes.SetValueWithoutSilentlyEchoes | remoting/dolphin-remoting-server/src/main/java/org/opendolphin/core/server/action/StoreValueChangeAction.java:42-48 | Outside the scope, a differing value applied to an idle attribute would echo. Inside the scope it does not. |
| ModelStore.FindAttributeById | remoting/dolphin-remoting-server/src/main/java/org/opendolphin/core/server/action/StoreValueChangeAction.java:36 | In a store whose attributes are indexed under their own ids, the attribute found carries the id it was looked up by. An id that is not indexed gives `null`. |
| StoreValueChangeAction.Handle | remoting/dolphin-remoting-server/src/main/java/org/opendolphin/core/server/action/StoreValueChangeAction.java:35-51 | Handling keeps the store's id set and adds nothing to the response. A found attribute ends with `value == newValue` and all its other fields unchanged. Every other attribute is untouched. At most one log entry is written. |
| StoreValueChangeAction.HandleRemoteWins | remoting/dolphin-remoting-server/src/main/java/org/opendolphin/core/server/action/StoreValueChangeAction.java:38-45 | For a found attribute the new value is applied whether or not the old value matches. A warning carrying (id, new, old, current) is logged exactly when the current value differs from the command's old value. |
| StoreValueChangeAction.HandleMissingAttribute | remoting/dolphin-remoting-server/src/main/java/org/opendolphin/core/server/action/StoreValueChangeAction.java:49-51 | For an unknown id, the store and response are unchanged and exactly one error (id, old, new) is logged. The command is dropped, not thrown. |
| StoreValueChangeAction.HandlePreservesInvariants | remoting/dolphin-remoting-server/src/main/java/org/opendolphin/core/server/action/StoreValueChangeAction.java:42-48 | Handling keeps every attribute indexed under its own id. If no silent flag was raised before, none is raised afterwards. |
| StoreValueChangeAction.HandleIdempotentIntent | remoting/dolphin-remoting-server/src/main/java/org/opendolphin/core/server/action/StoreValueChangeAction.java:36-48 | Handling the same command twice leaves the same store as handling it once. The second run echoes nothing. It logs a warning exactly when the command's old and new values differ, or it repeats the not-found error. |
| ActionRegistry.Register | remoting/dolphin-remoting-server/src/main/java/org/opendolphin/core/server/action/StoreValueChangeAction.java:33 | Registration installs the handler under its kind, keeps every other kind's handler, and keeps the registry well-typed. |
| ActionRegistry.Lookup | remoting/dolphin-remoting-server/src/main/java/org/opendolphin/core/server/action/StoreValueChangeAction.java:33-35 | Lookup finds a handler exactly when one is registered for the command's kind. In a well-typed registry that handler accepts the command's kind. |
| StoreValueChangeAction.RegisterIn | remoting/dolphin-remoting-server/src/main/java/org/opendolphin/core/server/action/StoreValueChangeAction.java:32-33 | `registerIn` adds exactly the value-change kind to the registry. Every value-change command then resolves to this handler. The other kinds' handlers are left alone. |
| StoreValueChangeAction.Dispatch | remoting/dolphin-remoting-server/src/main/java/org/opendolphin/core/server/action/StoreValueChangeAction.java:32-36 | A command with no registered handler is reported by its kind. A value-change command whose kind maps to this handler runs it on the command. Any other command goes to the handler registered for its kind. |
| StoreValueChangeAction.RegisteredHandlerReceivesValueChanges | remoting/dolphin-remoting-server/src/main/java/org/opendolphin/core/server/action/StoreValueChangeAction.java:32-36 | After `registerIn`, dispatching any value-change command runs exactly this handler on it. |
| StoreValueChangeAction.HandleAll | remoting/dolphin-remoting-server/src/main/java/org/opendolphin/core/server/action/StoreValueChangeAction.java:36-51 | Handling a batch in order keeps the id set, the response and both store invariants. It logs at most one entry per command. |
| StoreValueChangeAction.HandleAllLastWriteWins | remoting/dolphin-remoting-server/src/main/java/org/opendolphin/core/server/action/StoreValueChangeAction.java:36-51 | After a batch, each attribute holds the new value of the last command targeting it, or its old value if none does. No other field changes. |
| StoreValueChangeAction.HandleBatch | remoting/dolphin-remoting-server/src/main/java/org/opendolphin/core/server/action/StoreValueChangeAction.java:36-51 | The loop over a batch yields exactly the fold's result, log included: the same last-write-wins store, the same id set, the same warnings and errors, and nothing added to the response. |
| StoreValueChangeAction.HandleAllLogsMissing | remoting/dolphin-remoting-server/src/main/java/org/opendolphin/core/server/action/StoreValueChangeAction.java:49-51 | In a batch, every command naming an unknown attribute logs its not-found error (id, old, new), in command order, and no other not-found error is logged. |
| ListChangeEvent.NewChange | java-core/src/test/java/com/canoo/dolphin/collections/TestListChangeEvent.java:12-25 | Construction succeeds exactly when `removedElements` is non-null and `0 <= from <= to`, and it stores the given fields. Null removed elements give a NullPointerException. A negative `from` or a `to < from` gives an IllegalArgumentException. |
| ListChangeEvent.ClassificationExclusive | java-core/src/test/java/com/canoo/dolphin/collections/TestListChangeEvent.java:45-79 | For a valid change, at most one of added, removed and replaced holds. Exactly one holds unless the change inserts and removes nothing, and then none holds. |
| ListChangeEvent.NewEvent | java-core/src/test/java/com/canoo/dolphin/collections/TestListChangeEvent.java:27-43 | Construction succeeds exactly when the source and change list are non-null and the list is non-empty. A null source or null list gives a NullPointerException. A non-null source with an empty list gives an IllegalArgumentException. Every constructed event is valid. |
| ListChangeEvent.NewSingleChangeEvent | java-core/src/test/java/com/canoo/dolphin/collections/TestListChangeEvent.java:45-50 | The single-change constructor succeeds exactly when the change and the source are acceptable. It yields exactly one change, at index 0. A change that cannot be constructed fails with the change constructor's own exception. Otherwise a null source gives a NullPointerException. |
| ListChangeEvent.InsertionIsAddedOnly | java-core/src/test/java/com/canoo/dolphin/collections/TestListChangeEvent.java:45-55 | Empty removed elements with `to > from` is classified as added only, and the event's change at index 0 is that change. |
| ListChangeEvent.RemovalIsRemovedOnly | java-core/src/test/java/com/canoo/dolphin/collections/TestListChangeEvent.java:57-67 | Non-empty removed elements with `to == from` is classified as removed only. |
| ListChangeEvent.ReplacementIsReplacedOnly | java-core/src/test/java/com/canoo/dolphin/collections/TestListChangeEvent.java:69-79 | Non-empty removed elements with `to > from` is classified as replaced only. |
| ListChangeEvent.RejectedConstructions | java-core/src/test/java/com/canoo/dolphin/collections/TestListChangeEvent.java:12-43 | On the tests' own inputs, each rejected construction fails with the exception the test expects. |

## Behaviour the source leaves open

- Applying a remote change leaves `baseValue` unchanged: the handler only calls `setValue` (StoreValueChangeAction.java:45).
- The handler itself sets only the attribute it looked up (StoreValueChangeAction.java:36-45). Whether `setValue` then copies the value to attributes sharing a qualifier is decided inside `setValue`, which is not part of this model; the model has no such fan-out.
- A change that inserts nothing and removes nothing is accepted, since the tested checks are only a non-negative `from`, a `to` not before `from` and non-null removed elements. `ClassificationExclusive` proves that none of the three classifications holds for it.

## Left out

- Logging goes through SLF4J. The model records it as a returned `LogEntry`, not as output.
- `ServerAttribute.setValue` and `silently` are not part of this model. Only their observable contract is modelled: the value is stored, an echo appears only for a non-silent real change, and the flag is restored.
- Attributes.SetValue: this is the assumed observable contract of `setValue`, whose body is not part of this model: the value is stored, and a non-silent attribute whose value really changes appends one value-change command to the response. Qualifier fan-out, the dirty flag, value-type checks and property-change listeners inside `setValue` are not modelled.
- StoreValueChangeAction.Handle: its frame (every attribute but the one looked up keeps its value) and the frames of `HandleAll`, `HandleAllLastWriteWins` and `HandleBatch` hold because the model has no qualifier fan-out inside `setValue`.
- The source of the `ActionRegistry` class is not part of this model. The model picks one handler per kind, with a later registration replacing an earlier one. Handlers of other server actions appear only as `Unmodelled` names.
- The transport, the server connector that feeds commands to `Dispatch`, sessions, thread-safety of the store, and Spring/DI wiring are all left out. They are concurrency and plumbing.
- ListChangeEvent.NewEvent: the tests never combine a null argument with an empty change list. The model checks for a null source and a null list before the empty-list check, so a null source with an empty list gives a NullPointerException.
- ListChangeEvent.NewSingleChangeEvent: the implementation class is not part of this model. The model assumes this constructor builds the change first and passes it to the two-argument constructor, so a bad change is reported before a null source.
- The order of checks in the `Change` constructor is not pinned down by the tests when several arguments are wrong. The model reports the null list before the index checks.
- Bean mapping (`BeanManagerImpl`, `ClassRepository`, `BeanRepository`) and the test dolphin factory are left out. They are reflection-based wiring outside the replication core.
- `ObservableArrayList` and the computation of changes from list mutations are not part of this model. A source list is represented by its contents.
- Values.ObjectsEquals: attribute values are limited to four classes (null, text, integer, boolean) whose `equals` is structural. Other value classes, numeric cross-type comparisons and user-defined `equals` are not modelled.
