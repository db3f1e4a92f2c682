# rml in Dafny

rml is a small retained-mode UI toolkit written in Rust. It has two parts:

- `rml_core`, the runtime. It has an arena of UI nodes, a property store with change bindings, callbacks, and an event manager that turns polled input into system events and routes them to nodes.
- `rml_macros`, the `rml!` procedural macro. It turns a declarative node tree into Rust code. It finds which properties a binding block reads, and it threads the `engine` argument into user functions. Custom components imported from `.rml` files are expanded in place.

This project models both layers in Dafny and proves what each operation does.

Modules, one per source file:

| module | source |
|---|---|
| `Values` | `rml_core/src/properties.rs` |
| `Arena` | `rml_core/src/arena.rs` |
| `Events` | `rml_core/src/events.rs` |
| `Engine` | `rml_core/src/lib.rs` |
| `Structs` | `rml_macros/src/structs.rs` |
| `Format` | `rml_macros/src/format.rs` |
| `Common` | `rml_macros/src/common.rs` |
| `Macros` | `rml_macros/src/macros.rs` |

Two support modules sit beside them:

- `Strings` writes out the Rust `str` operations the macro crate relies on.
- `Wrappers` holds `Option` and `Result`.

The source's mutable objects are classes: `ArenaTree`, `Property`, `EventManager` and `RmlEngine`. Their methods carry `modifies` clauses that name the fields they update.

- The arena keeps its nodes by value in a `seq`, as the Rust `Vec` owns them.
- The engine keeps property values in a `map<nat, AbstractValue>`.
- Callbacks are opaque ids. Each id maps to a list of abstract actions: set a property, or emit a signal.
- The engine also has two ghost fields.
  - `dispatchLog` records every event handed to `handle_system_event`.
  - `drains` counts the calls of `run_callbacks`.

  These let the contracts say what `process_events` does.

Each imperative method is proved against a specification function on values: `SetOn`, `RunAll`, `HitList`, `Route`, `Enters`, `Leaves`, `ExtractionForm`, `Candidates` and the like. The properties the source promises are then proved about those functions as lemmas.

Where the code and its description disagree, the model follows the code:

- As written, `set_property_of_node` returns `false` even after a real change. The engine's `SetOn` and `SetPropertyOfNode` follow the intended contract and report a change exactly when the value changed. The as-written result is the separate member `SetAsWritten`; see Findings.
- `process_events` calls `get_handlers_for_event`, whose definition in `events.rs` is commented out. The model uses the commented filter by event type.
- There is no `AbstractValue::Color` variant, although a `set_color!` macro refers to one.

## Model

| member | source | states |
|---|---|---|
| `Values.ToNumber` | rml_core/src/properties.rs:95-100 | a number exactly for the Number variant, carrying its value |
| `Values.ToBool` | rml_core/src/properties.rs:102-107 | a boolean exactly for the Bool variant, carrying its value |
| `Values.ToColor` | rml_core/src/properties.rs:109-131 | a colour exactly for the String variant, the decoder's reading of that string |
| `Values.ToString` | rml_core/src/properties.rs:85-93 | strings render as themselves, booleans as "true"/"false", Null as "null", numbers through the number formatter |
| `Values.FromU32` | rml_core/src/properties.rs:42-46 | a 32-bit unsigned integer converts to a Number that reads back as the same value |
| `Values.FromF32` | rml_core/src/properties.rs:48-52 | a float converts to a Number that reads back unchanged |
| `Values.FromBool` | rml_core/src/properties.rs:54-58 | a boolean converts to a value that reads back as the same boolean |
| `Values.FromStr` | rml_core/src/properties.rs:60-70 | a string converts to the String variant holding it |
| `Values.FromVec` | rml_core/src/properties.rs:72-76 | a vector converts to an Array with the same items, which is neither a number nor a boolean |
| `Values.FromUnit` | rml_core/src/properties.rs:78-82 | the unit value is Null: neither a number nor a boolean, rendered "null" |
| `Values.StringRoundTrip` | rml_core/src/properties.rs:60-93 | rendering a converted string gives the string back, and it is neither a number nor a boolean |
| `Values.Property.constructor` | rml_core/src/properties.rs:18-22 | a new property holds its initial value |
| `Values.Property.Set` | rml_core/src/properties.rs:24-26 | after set, get returns the new value |
| `Values.Property.Get` | rml_core/src/properties.rs:28-30 | get returns the stored value, which the constructor and set determine |
| `Arena.ArenaNode.AddProperty` | rml_core/src/arena.rs:53-55 | the name now maps to the given id, other names keep their mapping, and id, type, parent and children are unchanged |
| `Arena.ArenaNode.GetProperty` | rml_core/src/arena.rs:57-59 | an id exactly for a declared property name, the one recorded for it |
| `Arena.NewNode` | rml_core/src/arena.rs:40-48 | a fresh node is a plain Node without parent, children or properties |
| `Arena.SetInsert` | rml_core/src/arena.rs:128 | insertion into an ordered set: the element is present, existing order is kept, it is appended only when new, no duplicates arise |
| `Arena.SwapRemove` | rml_core/src/arena.rs:210 | swap-removal: an absent element changes nothing; a present one is replaced by the last element, and the set shrinks by one and no longer holds it |
| `Arena.RemoveAt` | rml_core/src/arena.rs:218 | `Vec::remove`: one element fewer, earlier ones in place, later ones shifted down |
| `Arena.Linked` | rml_core/src/arena.rs:126-133 | after linking, the child is in the parent's set (old children first, a new child last) and the child's parent is the given parent |
| `Arena.Detached` | rml_core/src/arena.rs:207-212 | the removed node is swap-removed from its parent's child set; the node count is unchanged |
| `Arena.ArenaTree.constructor` | rml_core/src/arena.rs:101-106 | a new arena is empty and consistent |
| `Arena.ArenaTree.AddNode` | rml_core/src/arena.rs:109-123 | a taken id is refused with nothing changed; otherwise the node is appended at the next index and its id maps to that index |
| `Arena.ArenaTree.AddChild` | rml_core/src/arena.rs:126-133 | the node list becomes the linked one and the id map is kept, with consistency preserved |
| `Arena.ArenaTree.GetNodeById` | rml_core/src/arena.rs:136-138 | the node exactly for a known id that points inside the arena |
| `Arena.ArenaTree.GetNode` | rml_core/src/arena.rs:145-147 | the node exactly for an index inside the arena |
| `Arena.ArenaTree.GetChildrensIds` | rml_core/src/arena.rs:154-159 | a node's child ids, empty for a missing node, without duplicates in a consistent arena |
| `Arena.ArenaTree.GetChildrensIdsStr` | rml_core/src/arena.rs:162-172 | the string ids of the children whose index is in range, in child order, one per node `get_children` returns; nothing for a missing node |
| `Arena.ArenaTree.GetChildren` | rml_core/src/arena.rs:175-185 | exactly the nodes at the in-range child indices, in child order; nothing for a missing node |
| `Arena.ArenaTree.GetChildrenById` | rml_core/src/arena.rs:187-193 | the children of a known id, none for an unknown id |
| `Arena.Resolve` | rml_core/src/arena.rs:175-185 | the nodes at the in-range indices, in order; an index past the end is skipped and the rest still resolve; all resolve when every index is in range, none when none is |
| `Arena.InRange` | rml_core/src/arena.rs:175-185 | the indices below the bound: exactly the in-range members, all of them when every index is in range |
| `Arena.InRangeAppend` | rml_core/src/arena.rs:175-185 | the filter distributes over concatenation, so kept indices stay in child order with their multiplicity |
| `Arena.InRangeSingle` | rml_core/src/arena.rs:175-185 | one index is kept when below the bound and dropped otherwise |
| `Arena.InRangeKeepsOrder` | rml_core/src/arena.rs:175-185 | with bound 2, `[1, 99, 0]` gives `[1, 0]`: the gap is dropped and the order kept |
| `Arena.ResolveSkipsGaps` | rml_core/src/arena.rs:175-185 | children `[0, 99, 1]` over two nodes resolve to both nodes: the gap is skipped, not the rest |
| `Arena.ArenaTree.ChildrenAgree` | rml_core/src/arena.rs:154-185 | when every child index is in range, `get_children` gives the node at each of `get_childrens_ids`, position by position |
| `Arena.ArenaTree.RemoveNode` | rml_core/src/arena.rs:196-219 | a missing node first unmaps the empty id and then panics; a leaf is detached from its parent, removed from the list, and its id unmapped; any removal shrinks the arena, and nothing is ever remapped |
| `Events.EventTypeOf` | rml_core/src/events.rs:45-61 | each event kind maps to its own event type, in both directions |
| `Events.Select` | rml_core/src/events.rs:137-141 | a handler is kept exactly when it is registered and passes the filter; no more handlers come out than went in |
| `Events.SelectAppend` | rml_core/src/events.rs:137-141 | filtering distributes over concatenation, so registration order is kept |
| `Events.HandlersAfterAdd` | rml_core/src/events.rs:104-111 | a newly added handler shows up last among those selected, exactly when it passes the filter |
| `Events.MoveEvents` | rml_core/src/events.rs:151-162 | one MouseMove exactly when the position changed, carrying the new position and the delta |
| `Events.WheelEvents` | rml_core/src/events.rs:196-199 | one MouseWheel exactly when either delta is nonzero |
| `Events.KeyRunLayout` | rml_core/src/events.rs:201-212 | one key event per key, in the order given, with the phase's kind |
| `Events.KeyEventsLayout` | rml_core/src/events.rs:201-212 | key events are all Pressed, then all Down, then all Up, one per polled key |
| `Events.ResizeEvents` | rml_core/src/events.rs:214-222 | one WindowResize exactly when the screen size differs from the stored one, carrying the new size |
| `Events.ButtonsNeverResize` | rml_core/src/events.rs:164-192 | the button loop yields no WindowResize |
| `Events.KeysNeverResize` | rml_core/src/events.rs:201-211 | the key loops yield no WindowResize |
| `Events.FrameResizesExactlyOnChange` | rml_core/src/events.rs:144-226 | a frame holds a WindowResize exactly when the screen size differs from the stored size, and it is then the last event; with the size stored by each frame and the initial 800×600, a frame after one of the same size does not resize |
| `Events.UpThenClick` | rml_core/src/events.rs:176-192 | every MouseUp is immediately followed by a Click of the same button at the same position |
| `Events.DownExactlyWhenPressed` | rml_core/src/events.rs:165-174 | a MouseDown for a button occurs exactly when it is polled and pressed this frame |
| `Events.ClickExactlyWhenReleased` | rml_core/src/events.rs:176-192 | a MouseUp, and a Click, occur for a button exactly when it is polled and released this frame |
| `Events.PressedAfterExactly` | rml_core/src/events.rs:165-193 | a button is down afterwards exactly when it was down or was just pressed, and it was not just released |
| `Events.PollButtons` | rml_core/src/events.rs:165-193 | the button loop yields the specified button events and the new pressed set |
| `Events.PollKeyRun` | rml_core/src/events.rs:202-212 | the key loop yields one event per key in order |
| `Events.SynthesizeEvents` | rml_core/src/events.rs:144-226 | a frame's events are move, buttons, wheel, keys and resize, in that order |
| `Events.EventManager.constructor` | rml_core/src/events.rs:92-102 | no handlers, nothing hovered or focused, no buttons down, mouse at the origin, window 800×600 |
| `Events.EventManager.AddEventHandler` | rml_core/src/events.rs:104-111 | the handler is appended; hover, focus and the input state (position, previous position, pressed set, window size) are unchanged |
| `Events.EventManager.SetFocusedNode` | rml_core/src/events.rs:113-115 | the focused node reads back as the one set; handlers, hover and the input state are unchanged |
| `Events.EventManager.GetFocusedNode` | rml_core/src/events.rs:117-119 | the stored focus |
| `Events.EventManager.IsMouseButtonDown` | rml_core/src/events.rs:125-127 | true exactly when the button is in the pressed set |
| `Events.EventManager.IsNodeHovered` | rml_core/src/events.rs:129-131 | true exactly when the node is in the hovered list |
| `Events.EventManager.GetHandlersForNode` | rml_core/src/events.rs:137-141 | exactly the registered handlers for that node and event type |
| `Events.EventManager.GetHandlersForEvent` | rml_core/src/events.rs:133-135 | exactly the registered handlers for that event type |
| `Events.EventManager.UpdateFromInput` | rml_core/src/events.rs:144-226 | the previous position becomes the old position; the position, pressed set and window size become the sampled ones; the frame's events are returned |
| `Engine.PropertyIdOfNode` | rml_core/src/lib.rs:352-358 | a property id exactly when the node name is known and the node declares the property |
| `Engine.GetPropertyOfNode` | rml_core/src/lib.rs:335-350 | the default for an unknown node, property or id, otherwise the converted value or the default when conversion fails |
| `Engine.GetNumberReads` | rml_core/src/lib.rs:360-362 | `get_number_property_of_node` reads the stored number, and the default on a missing node, property or id or a non-number |
| `Engine.GetBoolReads` | rml_core/src/lib.rs:368-370 | `get_bool_property_of_node` reads the stored boolean, and the default on any miss or a non-boolean |
| `Engine.GetValue` | rml_core/src/lib.rs:162-176 | the stored value of the node's property, Null when any lookup fails |
| `Engine.GetValueIsTotalLookup` | rml_core/src/lib.rs:162-176 | `get_value` is the generic getter with default Null and no conversion |
| `Engine.PropertyByName` | rml_core/src/lib.rs:417-424 | a value exactly when the node index is valid, declares the property and the id is stored |
| `Engine.SetOn` | rml_core/src/lib.rs:376-397 | a change happens exactly when the property exists and its value differs; then the value is overwritten and the bound callbacks are queued in order; otherwise nothing changes |
| `Engine.SetThenGet` | rml_core/src/lib.rs:376-397 | after setting an existing property, reading it gives the value set |
| `Engine.SetAsWritten` | rml_core/src/lib.rs:376-397 | as written, the write never reports a change, and it leaves the same store as `SetOn` |
| `Engine.SetReturnAsWritten` | rml_core/src/lib.rs:376-397 | on every input the as-written function leaves the same store as `SetOn` and returns false, although the values change exactly when `SetOn` reports a change |
| `Engine.SetReturnDiscarded` | rml_core/src/lib.rs:391-396 | on a concrete input the value changes and a callback is queued, yet the as-written result is false |
| `Engine.EmitAlwaysFires` | rml_core/src/lib.rs:152-160 | emitting a stored signal always changes its value, so the queue grows by exactly the signal's bound callbacks |
| `Engine.EmitOn` | rml_core/src/lib.rs:152-160 | an emit touches at most the signal's own property, keeps the set of stored ids, only appends to the queue, and changes nothing for an unknown signal |
| `Engine.ApplyAction` | rml_core/src/lib.rs:661 | one action keeps the set of stored ids and only appends to the queue |
| `Engine.ApplyActions` | rml_core/src/lib.rs:661 | a callback's actions keep the set of stored ids and only append to the queue |
| `Engine.ActionQueuesBound` | rml_core/src/lib.rs:376-397 | one action keeps the queue as a prefix, and everything it appends is a callback bound to some property |
| `Engine.ActionsQueueBound` | rml_core/src/lib.rs:461-473 | a callback's actions keep the queue as a prefix and append only bound callbacks |
| `Engine.RunAll` | rml_core/src/lib.rs:461-473 | running callbacks keeps the set of stored ids and only appends to the queue |
| `Engine.RunAllQueueBound` | rml_core/src/lib.rs:461-473 | running a list of callbacks keeps the queue as a prefix and appends only bound callbacks |
| `Engine.RunCallbacksOn` | rml_core/src/lib.rs:461-473 | a drain keeps the set of stored ids |
| `Engine.DrainLeavesOnlyBound` | rml_core/src/lib.rs:461-473 | for any queue, what a drain leaves queued is exactly what its callbacks enqueued, each a callback bound to some property |
| `Engine.UnregisteredSkipped` | rml_core/src/lib.rs:461-473 | ids with no registered callback are skipped without effect |
| `Engine.SecondOrderDeferred` | rml_core/src/lib.rs:461-473 | worked case: when the one queued callback writes a new value, that callback's bound callbacks wait queued and the write is the only change to the values |
| `Engine.IsPointInsideNode` | rml_core/src/lib.rs:713-727 | only a node inside the arena can contain a point |
| `Engine.MissingGeometryIsOrigin` | rml_core/src/lib.rs:713-727 | a node without geometry properties is a point at the origin |
| `Engine.CornersInside` | rml_core/src/lib.rs:713-727 | with a non-negative size, all four corners of the box count as inside |
| `Engine.Reverse` | rml_core/src/lib.rs:689 | the list reversed, element by element, with the same members |
| `Engine.Collect` | rml_core/src/lib.rs:675-711 | at most one index per scanned node; with a point, every index listed holds it |
| `Engine.HitList` | rml_core/src/lib.rs:675-693 | at most one entry per node, and every node listed contains the point |
| `Engine.MouseAreaNodes` | rml_core/src/lib.rs:695-711 | at most one entry per node |
| `Engine.CollectBelow` | rml_core/src/lib.rs:675-693 | the scan up to index k only yields indices below k |
| `Engine.CollectExactly` | rml_core/src/lib.rs:675-693 | the scan yields exactly the mouse areas below k that contain the point, in increasing order |
| `Engine.HitListTopmostFirst` | rml_core/src/lib.rs:675-693 | the hit list holds exactly the mouse areas containing the point, last-added first |
| `Engine.MouseAreaNodesAll` | rml_core/src/lib.rs:695-711 | over a consistent id map, the list holds exactly the MouseArea nodes, last-added first |
| `Engine.RetargetAll` | rml_core/src/lib.rs:551-595 | one copy of the event per target, addressed to that target |
| `Engine.Route` | rml_core/src/lib.rs:525-598 | one event per target, each of the polled event's type; an event that cannot be consumed reaches at most one node |
| `Engine.Targets` | rml_core/src/lib.rs:525-598 | events that cannot be consumed reach at most one node |
| `Engine.RouteByKind` | rml_core/src/lib.rs:525-598 | keys go to the focused node only; clicks and button events go to the hit list; moves and wheel go to all mouse areas; window events are broadcast once; enter and leave are not routed here |
| `Engine.RouteRetargets` | rml_core/src/lib.rs:525-598 | a route is the retargeted event per target, and a single one for a non-consumable event |
| `Engine.KeysOnlyToFocus` | rml_core/src/lib.rs:525-598 | key events reach only the focused node, and nothing without focus |
| `Engine.Enters` | rml_core/src/lib.rs:513-523 | every MouseEnter is for a node under the mouse that was not hovered before |
| `Engine.Leaves` | rml_core/src/lib.rs:601-613 | every MouseLeave is for a node hovered before that is no longer under the mouse |
| `Engine.StillHoveredIsSilent` | rml_core/src/lib.rs:513-523 | a node hovered before and after gets neither enter nor leave |
| `Engine.EveryNewNodeEntered` | rml_core/src/lib.rs:513-523 | every newly hovered node gets a MouseEnter |
| `Engine.AllValidAt` | rml_core/src/lib.rs:525-598 | bounds only: each recorded delivery count lies within its route, and is the whole route for non-consumable events; `FirstStop` and `RouteOn` fix the count exactly |
| `Engine.DeliveredSnoc` | rml_core/src/lib.rs:525-598 | the delivered log of one more event is the earlier log plus that event's delivered prefix |
| `Engine.DeliveredStep` | rml_core/src/lib.rs:525-598 | routing event i after the first i keeps every count valid and appends that event's delivered prefix |
| `Engine.CallbackIds` | rml_core/src/lib.rs:624-654 | the callback ids of the selected handlers, in order |
| `Engine.HandlersFor` | rml_core/src/lib.rs:624-654 | every handler looked up is registered and matches the event, and there are no more than registered |
| `Engine.HandlersForSelects` | rml_core/src/lib.rs:624-654 | the lookup is the event manager's filter: by type alone for window events, by node and type otherwise |
| `Engine.StepOn` | rml_core/src/lib.rs:513-522 | one turn: the store changes only when the event is dispatched; the loop stops exactly when the node's flag reads `Bool(true)` after the handlers ran; a stored flag sets `consumed` to whether it stops, a missing one leaves it alone |
| `Engine.RunSteps` | rml_core/src/lib.rs:513-613 | a loop runs at least one turn when there is one, never past the end, and a loop cut short leaves `consumed` set |
| `Engine.RunStepsTurn` | rml_core/src/lib.rs:513-613 | one turn either ends the loop with its own state or hands that state to the next turn |
| `Engine.UnflaggedRunsAll` | rml_core/src/lib.rs:513-613 | turns without a readable consume flag run to the end and leave `consumed` as it was |
| `Engine.TrueFlagBreaks` | rml_core/src/lib.rs:519-522 | a turn whose flag reads true after its handlers ends the loop right after it, with `consumed` set |
| `Engine.FirstStopFrom` | rml_core/src/lib.rs:513-613 | from any turn, the loop ends right after the first later turn that stops, or after the last turn, with the state the turns up to there left |
| `Engine.FirstStop` | rml_core/src/lib.rs:513-613 | a dispatch loop stops exactly after the first turn whose flag reads true once its handlers have run, or after the last turn; its final store and flag are those that running exactly those turns gives |
| `Engine.Dispatched` | rml_core/src/lib.rs:513-613 | no more events reach `handle_system_event` than there are turns |
| `Engine.DispatchedStep` | rml_core/src/lib.rs:513-613 | one more turn adds its event to the log exactly when it dispatches |
| `Engine.EnterLog` | rml_core/src/lib.rs:513-523 | the first k enter turns dispatch exactly the MouseEnter events of the first k hit nodes that were not hovered |
| `Engine.DeliverLog` | rml_core/src/lib.rs:551-595 | the first k delivery turns dispatch the event retargeted to each of the first k targets |
| `Engine.LeaveLog` | rml_core/src/lib.rs:601-613 | the first k leave turns dispatch exactly the MouseLeave events of the first k old nodes no longer hovered |
| `Engine.RouteOn` | rml_core/src/lib.rs:525-598 | one polled event: a valid delivery count; a non-consumable event leaves `consumed` alone; a consumable one cut short leaves it set |
| `Engine.RouteAll` | rml_core/src/lib.rs:525-598 | the events of a frame, routed in order on the state each leaves, each with a valid count |
| `Engine.RouteAllStep` | rml_core/src/lib.rs:525-598 | routing one more event runs its route on the state the earlier events left |
| `Engine.DispatchOn` | rml_core/src/lib.rs:499-613 | the new hovered list is a prefix of the hit list, non-empty when the hit list is; every count is valid; the leave loop runs at least one turn when something was hovered |
| `Engine.FrameOn` | rml_core/src/lib.rs:499-622 | a whole frame after polling: the same hovered list, counts and leave count as the three loops give, then one drain |
| `Engine.AddKeepsDense` | rml_core/src/lib.rs:399-403 | a new id is the map's size; on a dense map it is fresh and keeps the map dense |
| `Engine.RemoveThenAddOverwrites` | rml_core/src/lib.rs:413-415 | after a removal, the size-based next id can collide with a live one and overwrite it |
| `Engine.RmlEngine.constructor` | rml_core/src/lib.rs:224-235 | a new engine has an empty arena, store, bindings, queue and handler list, and no current event; its event manager has the mouse at the origin, no buttons down and a window of 800×600 |
| `Engine.RmlEngine.AddPropertyToNode` | rml_core/src/lib.rs:329-333 | the node, when present, gains the property id under its name; nothing else changes |
| `Engine.RmlEngine.AddProperty` | rml_core/src/lib.rs:399-403 | the value is stored under the next size-based id, which is returned |
| `Engine.RmlEngine.RemoveProperty` | rml_core/src/lib.rs:413-415 | the id leaves the store; nothing else changes |
| `Engine.RmlEngine.AddCallback` | rml_core/src/lib.rs:435-442 | the callback is stored under the next size-based id, which is returned; the store, bindings, current event, consume flag, log and drain count are unchanged |
| `Engine.RmlEngine.BindPropertyToCallback` | rml_core/src/lib.rs:444-449 | the callback is appended to the property's binding list, duplicates included; the store, callbacks, current event, consume flag, log and drain count are unchanged |
| `Engine.RmlEngine.BindNodePropertyToCallback` | rml_core/src/lib.rs:451-459 | binding through a node name binds the node's property id; an unknown node or property changes nothing; the store, callbacks, current event, consume flag, log and drain count are unchanged |
| `Engine.RmlEngine.SetPropertyOfNode` | rml_core/src/lib.rs:376-397 | the store becomes `SetOn`'s result, and the returned flag says whether the value changed |
| `Engine.RmlEngine.Emit` | rml_core/src/lib.rs:152-160 | the bound callbacks of the signal are queued |
| `Engine.RmlEngine.Invoke` | rml_core/src/lib.rs:661 | a callback's actions are applied to the store in order |
| `Engine.RmlEngine.RunCallbacks` | rml_core/src/lib.rs:461-473 | the queue is taken and drained once; callbacks queued meanwhile stay queued |
| `Engine.RmlEngine.AddEventHandler` | rml_core/src/lib.rs:480-484 | a handler for a known node name is appended with its node index; an unknown name changes nothing; hover, focus and the input state are unchanged |
| `Engine.RmlEngine.SetFocusedNode` | rml_core/src/lib.rs:494-497 | focus moves to the named node, or to none for an unknown name; handlers, hover and the input state are unchanged |
| `Engine.RmlEngine.HandleSystemEvent` | rml_core/src/lib.rs:624-667 | the callbacks of the event's handlers run on the store in registration order; the current event is cleared when some registered callback ran, and kept otherwise |
| `Engine.RmlEngine.RunHandler` | rml_core/src/lib.rs:657-666 | a registered callback's actions are applied and the current event is cleared; an unregistered id changes nothing |
| `Engine.RmlEngine.GetMouseAreaNodesAtPosition` | rml_core/src/lib.rs:675-693 | gives the hit list at the point |
| `Engine.RmlEngine.GetMouseAreaNodes` | rml_core/src/lib.rs:695-711 | all mouse areas, last-added first |
| `Engine.RmlEngine.ReadConsumeFlag` | rml_core/src/lib.rs:519-522 | the consumed flag becomes the node's boolean flag property; stopping happens exactly when that flag exists and is true |
| `Engine.RmlEngine.DispatchStep` | rml_core/src/lib.rs:513-522 | one turn: the store, the consume flag and `stop` become exactly what `StepOn` gives from the old state; the event is logged when dispatched; the current event is cleared when a registered callback ran |
| `Engine.RmlEngine.DispatchTurn` | rml_core/src/lib.rs:513-613 | turn i either ends the loop with the loop's final state or leaves the state from which the rest of the loop reaches it; the log grows by that turn's event |
| `Engine.RmlEngine.DispatchSteps` | rml_core/src/lib.rs:513-613 | the loop ends after the number of turns `RunSteps` gives, with its store and flag; the log grows by the events of exactly those turns |
| `Engine.RmlEngine.DispatchEnter` | rml_core/src/lib.rs:513-523 | the new hovered list is the prefix of the hit list up to the first node that consumes its enter (`RunSteps` on the enter turns); the store and flag are what those turns leave; the log grows by their enter events |
| `Engine.RmlEngine.DeliverEach` | rml_core/src/lib.rs:551-595 | delivery to targets in order, stopping after the first target that consumes; the store and flag are what those deliveries leave; the log grows by the retargeted events |
| `Engine.RmlEngine.RouteEvent` | rml_core/src/lib.rs:525-598 | one polled event: the count, store and flag are `RouteOn`'s; the log grows by that prefix of its route |
| `Engine.RmlEngine.DispatchLeave` | rml_core/src/lib.rs:601-613 | from a cleared flag, leave events go to formerly hovered nodes no longer hovered, stopping after the first that consumes; store, flag and log as the leave turns give |
| `Engine.RmlEngine.GetMouseAreaNodesUnderMouse` | rml_core/src/lib.rs:669-672 | the hit list at the stored mouse position |
| `Engine.RmlEngine.RouteNext` | rml_core/src/lib.rs:525-598 | after event i the store, flag and counts are what `RouteAll` gives for the first i + 1 events, and the log grows by its delivered prefix |
| `Engine.RmlEngine.RouteEvents` | rml_core/src/lib.rs:525-598 | the counts, store and flag are exactly `RouteAll`'s, and the log grows by each event's delivered prefix in order |
| `Engine.RmlEngine.DispatchFrame` | rml_core/src/lib.rs:499-613 | the hovered list, counts, store and flag are exactly `DispatchOn`'s; the log is the enters, the routed events and the leaves, in that order |
| `Engine.RmlEngine.HandleFrame` | rml_core/src/lib.rs:499-622 | after polling: hovered list, counts, leave count and flag are `DispatchOn`'s on the hit list at the mouse position, the mouse areas and the focus; the store is that result drained once; the input state is unchanged and the current event is kept or cleared |
| `Engine.RmlEngine.ProcessEvents` | rml_core/src/lib.rs:499-622 | one frame: the events are the polled ones; the hovered list, counts, store and flag are exactly `FrameOn`'s, so the final store is determined by the inputs; enters, routed events, then leaves are logged; the queue is drained once; the previous position becomes the old position, and the position, pressed set and window size become the sampled ones, so the next frame synthesises its events from them |
| `Structs.PropertyKey.KeyString` | rml_macros/src/structs.rs:33-39 | a simple or signal key renders as its name, a composed key as base "_" field |
| `Structs.LitToString` | rml_macros/src/structs.rs:58-71 | the text of each literal kind: strings and byte strings as their contents, a byte as its decimal digits without leading zeros, integers, floats, booleans and characters as their text; none for other literals |
| `Structs.ValueToAbstractValue` | rml_macros/src/structs.rs:73-96 | every literal kind maps to its runtime value (strings, byte strings and chars to String, numbers and bytes to Number, bools to Bool), identifiers to strings, blocks and other literals to Null |
| `Structs.ValueToString` | rml_macros/src/structs.rs:98-106 | identifiers render as themselves, blocks as "<block>", literals as their text |
| `Structs.TextRenderingsAgree` | rml_macros/src/structs.rs:73-106 | for identifiers and textual literals, the runtime rendering of the converted value equals the macro's own rendering |
| `Format.GetterNamesSeparated` | rml_macros/src/format.rs:8-12 | the listed getter names are well formed, and no two of them are prefixes of one another |
| `Format.GetterNamesNonEmpty` | rml_macros/src/format.rs:8-12 | every getter name in the list is non-empty |
| `Format.GetterNamesPlain` | rml_macros/src/format.rs:8-12 | no getter name holds a carriage return |
| `Format.FormatCodeForBindingExtraction` | rml_macros/src/format.rs:4-17 | the loop computes the extraction form: line breaks and carriage returns removed, then a break put before each getter in list order |
| `Format.InsertBreaksAvoids` | rml_macros/src/format.rs:13-15 | inserting breaks introduces no other character |
| `Format.InsertBreaksOnlyBreaks` | rml_macros/src/format.rs:13-15 | with line breaks removed, the text is what it was before the insertion |
| `Format.ReplaceBreaks` | rml_macros/src/format.rs:14 | one replacement keeps every earlier break in front of a getter, and each new break stands before the replaced getter |
| `Format.InsertBreaksBefore` | rml_macros/src/format.rs:13-15 | starting from a text without breaks, every break inserted stands before a listed name |
| `Format.ExtractionForm` | rml_macros/src/format.rs:4-17 | the result has no carriage return and differs from the input with breaks and carriage returns removed only by inserted breaks |
| `Format.ExtractionFormShape` | rml_macros/src/format.rs:4-17 | every line break in the extraction form is immediately followed by one of the getter names |
| `Format.TrimmedParts` | rml_macros/src/format.rs:213 | the comma-separated arguments, each trimmed |
| `Format.LineDependency` | rml_macros/src/format.rs:202-248 | a line yields a dependency only when it names a getter, and never the binding's own property |
| `Format.Candidates` | rml_macros/src/format.rs:201-249 | the collected list never holds the binding's own property |
| `Format.CandidatesSnoc` | rml_macros/src/format.rs:201-249 | lines are processed one after another, in order |
| `Format.PanicIsFinal` | rml_macros/src/format.rs:212-235 | once a line's slice panics, the whole extraction panics |
| `Format.Dedup` | rml_macros/src/format.rs:251-253 | deduplication keeps exactly the same elements |
| `Format.DedupNoDup` | rml_macros/src/format.rs:251-253 | the result has no duplicates |
| `Format.DedupPrefix` | rml_macros/src/format.rs:251-253 | the first occurrences come out in their original order: deduplicating a prefix gives a prefix of the result |
| `Format.CollectDependencies` | rml_macros/src/format.rs:201-249 | the line loop computes the candidate list, or panics |
| `Format.RetainFirstOccurrences` | rml_macros/src/format.rs:252-253 | the seen-set `retain` computes the deduplication |
| `Format.RelatedProperties` | rml_macros/src/format.rs:184-256 | a panic exactly when a line panics; otherwise exactly the collected dependencies, without the binding's own property and without duplicates |
| `Format.FindRelatedPropertyForBinding` | rml_macros/src/format.rs:184-256 | the method computes `RelatedProperties`: the dependencies of a binding, without its own property and without duplicates |
| `Format.ShortMacroCallIgnored` | rml_macros/src/format.rs:210-222 | a macro-form getter call with fewer than three arguments contributes nothing |
| `Format.ReversedMethodSlicePanics` | rml_macros/src/format.rs:233-235 | a method-form line whose last ')' lies before its first '(' panics |
| `Format.EngineArgument` | rml_macros/src/format.rs:113-121 | the engine argument is `&mut engine` exactly when defining or mutable |
| `Format.InjectEngineTextBased` | rml_macros/src/format.rs:106-144 | the line loop computes the rewrite: each line, after every function's replacements, followed by one break |
| `Format.InjectLine` | rml_macros/src/format.rs:125-140 | rewriting a line that holds no break, with names and engine argument that hold none, adds no line break |
| `Format.OneBreakPerLine` | rml_macros/src/format.rs:125-141 | the output has exactly one '\n' per input line |
| `Format.DefinitionLineUnchanged` | rml_macros/src/format.rs:128-133 | a line holding `fn f(` for every listed function is left unchanged |
| `Format.NoCallUnchanged` | rml_macros/src/format.rs:134-137 | a line calling none of the functions is left unchanged |
| `Format.InjectInStmt` | rml_macros/src/format.rs:155-172 | statements other than call expressions are unchanged |
| `Format.InjectEngineInBlock` | rml_macros/src/format.rs:146-181 | the rewrite is statement by statement, with the length kept |
| `Format.CallsGetEngine` | rml_macros/src/format.rs:155-172 | a call keeps its callee and semicolon, and gets the engine as first argument exactly when it had no bare `engine` argument |
| `Format.PlainInjectionIdempotent` | rml_macros/src/format.rs:146-181 | rewriting twice with plain `engine` equals rewriting once |
| `Format.InitializerInjectionRepeats` | rml_macros/src/format.rs:146-181 | in initializer mode `&mut engine` is not recognised, so rewriting twice inserts it twice |
| `Common.FindKey` | rml_macros/src/common.rs:204-218 | the first entry whose key renders as the name, or none |
| `Common.ExtractNodeId` | rml_macros/src/common.rs:191-199 | the rendering of the first "id" entry, none exactly when no key renders as "id" |
| `Common.ApplyOne` | rml_macros/src/common.rs:208-216 | one override: the first matching entry gets the new value in place, otherwise the entry is appended |
| `Common.ApplyInstanceProperties` | rml_macros/src/common.rs:204-218 | the loop applies every instance entry in order |
| `Common.ApplyAllKeepsKeys` | rml_macros/src/common.rs:204-218 | existing entries keep their keys and positions |
| `Common.ApplyOneLookup` | rml_macros/src/common.rs:208-216 | after one override, its key reads the new value and other keys their old ones |
| `Common.FindKeyAppend` | rml_macros/src/common.rs:204-218 | appending an entry affects only lookups that found nothing before |
| `Common.LookupAppend` | rml_macros/src/common.rs:204-218 | an appended entry is seen only by keys not already present |
| `Common.FindKeySameKeys` | rml_macros/src/common.rs:204-218 | lookups depend only on keys, not on values |
| `Common.InstanceOverrides` | rml_macros/src/common.rs:204-218 | after applying, a key reads the instance's value when the instance has one and the component's otherwise |
| `Common.ComposedMeetsSimple` | rml_macros/src/common.rs:207 | keys are compared by rendering, so composed `a.b` overrides simple `a_b` |
| `Common.NodeTypeOf` | rml_macros/src/common.rs:342-348 | exactly the four built-in type names are recognised |
| `Common.EventTypeByName` | rml_macros/src/common.rs:545-560 | each of the thirteen event names maps to its own event type and no other name maps to it; unknown names map to none; a name is a mouse event name exactly when it maps to a mouse event type |
| `Common.EventTypeName` | rml_macros/src/common.rs:545-560 | every event type has a known name, which does not start with "o" and does not end in "changed" |
| `Common.EventNameRoundTrip` | rml_macros/src/common.rs:545-560 | the name of an event type maps back to it, and it is the only name that does |
| `Common.PropertyCodeFor` | rml_macros/src/common.rs:497-578 | the macro error happens exactly for `on_<mouse event>` on a node that is not a MouseArea when no signal of that name is declared; a signal key declares a signal; a key without `on_` declares a property (Null for a block, else its value); a block on `on_..._changed` is a change callback observing the name between the affixes; a block on `on_<declared signal>` is that signal's handler; an `on_` name that is neither a signal nor an event gives no code; a non-block value on an `on_` key gives no code; a system handler has the event type of its name |
| `Common.HandlerKey` | rml_macros/src/common.rs:502-540 | `on_` followed by an event name is a handler key, not a change key, and stripping `on_` gives the name back |
| `Common.NotChangedKey` | rml_macros/src/common.rs:502 | `on_` and a name not ending in "changed" does not end in "_changed" |
| `Common.SystemHandlerFor` | rml_macros/src/common.rs:535-560 | a block on `on_<event>` without a signal of that name is a system handler for that event, on a MouseArea for mouse events |
| `Common.InitCodeFor` | rml_macros/src/common.rs:392-450 | no initializer exactly when a block on a plain key panics in dependency extraction; a binding is for a plain key with its block, under its name, its dependencies without itself and without duplicates; ready code comes from an `on_ready` block |
| `Common.BlockBinding` | rml_macros/src/common.rs:397-434 | a block value on a plain key is declared Null, and any initializer code for it is a binding holding that block |
| `Common.ReadyIsInitializerOnly` | rml_macros/src/common.rs:436-447 | `on_ready` produces no creation code and only its initializer |
| `Common.MouseEventOutsideMouseAreaPanics` | rml_macros/src/common.rs:535-543 | for each of the seven mouse event names, its handler on a node that is not a MouseArea is a macro error unless a signal of that name is declared |
| `Common.CreationCode` | rml_macros/src/common.rs:488-590 | succeeds exactly when every entry does; then one creation step per property, in order, each that property's code |
| `Common.InitializerCode` | rml_macros/src/common.rs:389-451 | succeeds exactly when every entry's extraction does; then one initializer per property, in order, each that property's |
| `Common.AllSome` | rml_macros/src/common.rs:389-451 | all values are present exactly when each is, kept in order |
| `Common.GeneratePlan` | rml_macros/src/common.rs:332-618 | a node generates exactly when its type is known, its creation code and its initializer code succeed; the plan has that type, the declared or generated id, the four zero geometry properties, and that creation and initializer code |
| `Common.AllOk` | rml_macros/src/common.rs:364-384 | all succeed exactly when each does, keeping their results in order |
| `Common.GenerateTree` | rml_macros/src/common.rs:332-384 | a tree generates exactly when its root and every child do; then it holds the root's plan and each child's plan, in child order |
| `Macros.RmlFiles` | rml_macros/src/macros.rs:27-43 | exactly the `.rml` entries become component definitions |
| `Macros.RmlFilesAppend` | rml_macros/src/macros.rs:27-43 | the listing order is kept: the `.rml` files of two listings in turn are those of the first, then those of the second |
| `Macros.LoadComponents` | rml_macros/src/macros.rs:16-46 | a missing directory is an error; otherwise the `.rml` definitions |
| `Macros.ParentDir` | rml_macros/src/macros.rs:141 | `Path::parent`: everything before the last '/', "/" when that is the first character, "" when there is none |
| `Macros.JoinPath` | rml_macros/src/macros.rs:141 | `Path::join`: the directory, one '/' separator, then the path; an empty directory gives the path |
| `Macros.ResolvePath` | rml_macros/src/macros.rs:135-142 | an absolute import path is kept; any resolved path ends with the import path |
| `Macros.ComponentKey` | rml_macros/src/macros.rs:148-152 | a component registers under its name, prefixed by `alias::` when aliased |
| `Macros.RegisterAllLookup` | rml_macros/src/macros.rs:147-156 | a key maps to the last loaded component with that key; other keys are unchanged |
| `Macros.LastWithKeyExists` | rml_macros/src/macros.rs:147-156 | a later registration exists exactly when some loaded component has that key |
| `Macros.RegisterImport` | rml_macros/src/macros.rs:146-157 | an import whose directory fails to load registers nothing |
| `Macros.RegisterImportsStep` | rml_macros/src/macros.rs:126-162 | imports are processed one after another, in order |
| `Macros.RegisterLoaded` | rml_macros/src/macros.rs:147-156 | the insertion loop computes the registration |
| `Macros.ParseImports` | rml_macros/src/macros.rs:126-162 | the import loop computes the registered component map |
| `Macros.ResolveNodeKind` | rml_macros/src/macros.rs:290-305 | a registered component wins; otherwise a built-in type; otherwise an error |
| `Macros.ComponentShadowsBuiltIn` | rml_macros/src/macros.rs:290-297 | a component whose key (alias-qualified or not) is a built-in type's name resolves to the component, not the built-in |
| `Macros.OriginalId` | rml_macros/src/macros.rs:595-598 | the component's own id, or empty |
| `Macros.WithoutKey` | rml_macros/src/macros.rs:601 | exactly the entries with a different key are kept |
| `Macros.RetainWithoutKey` | rml_macros/src/macros.rs:601 | the `retain` loop computes that filter |
| `Macros.MergeComponent` | rml_macros/src/macros.rs:595-615 | the merge returns the original id and the merged node |
| `Macros.WithoutKeyLookup` | rml_macros/src/macros.rs:601 | removing one key does not change lookups of other keys |
| `Macros.WithoutKeyAbsent` | rml_macros/src/macros.rs:601 | after `retain`, no entry keyed "id" remains |
| `Macros.MergedProperties` | rml_macros/src/macros.rs:601-612 | the merged id is the instance's, and other keys read the instance's value over the component's |
| `Macros.MergedChildren` | rml_macros/src/macros.rs:615 | the component's children come first, then the instance's |
| `Macros.RenameIds` | rml_macros/src/macros.rs:619-649 | the returned id is the regenerated one, and nothing changes when the original id is empty |
| `Macros.RenameWithoutMentions` | rml_macros/src/macros.rs:629-647 | code that does not mention the original id is left as generated |
| `Macros.GenerateCustomComponent` | rml_macros/src/macros.rs:577-650 | expansion succeeds exactly when the file parses and the merged node generates, with the regenerated id |
| `Macros.UnnamedComponentUnchanged` | rml_macros/src/macros.rs:629 | a component without an id is returned exactly as generated |
| `Macros.ParseNode` | rml_macros/src/macros.rs:221-272 | the body loop builds the node from its items in order |
| `Macros.ParsedFunctions` | rml_macros/src/macros.rs:222-267 | a node's functions are exactly its own plus its children's hoisted ones |
| `Macros.ParseHoists` | rml_macros/src/macros.rs:264-267 | when every child has hoisted its descendants' functions, so has the parsed node |
| `Macros.DescendantFunctionsHoisted` | rml_macros/src/macros.rs:264-267 | every function of any descendant is in the root's list |
| `Strings.FindFrom` | rml_macros/src/format.rs:204-207 | the first occurrence at or after the start, none exactly when there is none |
| `Strings.RFindChar` | rml_macros/src/format.rs:234 | the last position of the character |
| `Strings.RemoveChar` | rml_macros/src/format.rs:6 | all occurrences of the character removed, every other character kept |
| `Strings.IndexOf` | rml_macros/src/format.rs:210-211 | the first position of the character |
| `Strings.Split` | rml_macros/src/format.rs:213 | at least one piece, and no piece holds the separator |
| `Strings.Lines` | rml_macros/src/format.rs:201 | no line produced by `lines()` holds a line break |
| `Strings.StripCr` | rml_macros/src/format.rs:201 | dropping a trailing carriage return adds no character |
| `Strings.TrimStart` | rml_macros/src/format.rs:202 | no longer than the input, and not starting with whitespace |
| `Strings.TrimEnd` | rml_macros/src/format.rs:202 | no longer than the input, and not ending with whitespace |
| `Strings.TrimMatches` | rml_macros/src/format.rs:217 | the result neither starts nor ends with the character |
| `Strings.TrimStartMatches` | rml_macros/src/common.rs:502-512 | repeated prefix removed, so the result no longer starts with it |
| `Strings.TrimEndMatches` | rml_macros/src/common.rs:502-512 | repeated suffix removed, so the result no longer ends with it |
| `Strings.NatToDecimal` | rml_macros/src/structs.rs:58-71 | the decimal rendering: digits only, no leading zero, reading back as the number |
| `Strings.PrefixStripped` | rml_macros/src/common.rs:502-512 | a prefix put before a text that does not start with it is stripped exactly once |
| `Strings.ReplaceAllAvoids` | rml_macros/src/format.rs:14 | replacement introduces no character absent from text and replacement |
| `Strings.ReplaceAllAbsent` | rml_macros/src/format.rs:14 | replacing an absent pattern changes nothing |
| `Strings.ReplaceAllKeepsStart` | rml_macros/src/format.rs:14 | a text keeps its prefix when the pattern starts nowhere inside that prefix |
| `Strings.ReplaceAllModulo` | rml_macros/src/format.rs:14 | when pattern and replacement agree once a character is removed, so do the text before and after replacement |

The remaining `Strings` helpers (`Trim`, `ReplaceAll`, `StartsWith`, `EndsWith`, `Contains`, `Find`, `OccursAt`) have no row: each is specified by its body, and the rows above state their properties.

## Left out

- Layout and drawing (`rml_core/src/draw.rs`, macroquad draw calls) are not part of this model: they are rendering side effects.
- The example programs under `rml_example` are window loops over macroquad, so they are not modelled.
- `transform_dollar_syntax` rewrites `$.` syntax with the regex crate and is not modelled. Its guard returns the text unchanged when `$.` is absent.
- `format_code` spawns rustfmt as a subprocess and is not modelled.
- The filesystem is a parameter. `LoadComponents` takes the directory's existence and entries, and `ParseImports` takes a `load` function. The component file read in `generate_custom_component` arrives as a parsed `Result`.
- Path handling is simplified. `ResolvePath` joins with '/' and does not normalise `.`/`..` or platform separators.
- Macros.ParentDir: it differs from `Path::parent` on two cases. For "/" Rust has no parent, so `unwrap_or` gives "", while the model gives "/". With a trailing slash Rust drops the last component ("a/b/" gives "a"), while the model cuts at the last '/' (giving "a/b"). Neither occurs for the path of a `.rml` file.
- syn parsing and quote token generation are left to the external crates. The model starts from parsed items and produces plans and code text. The `ToTokens` impls in `arena.rs` are left out.
- Macros.RenameIds: the replaced code is kept as a string and not re-parsed into tokens. The source falls back to the old tokens when re-parsing fails.
- Macros.GenerateCustomComponent: `generate_with_components` is a parameter, so the recursion through nested components is not unfolded.
- Common.GenerateTree: generated ids (uuid) come from a `newId` function of the node's path.
- Floating point is modelled as `real`, with no NaN, no rounding and no `f32` range.
- Number and array formatting are parameters of `Values.ToString`.
- `decompose_color_string` is a decoder parameter of `Values.ToColor`. `lighter_color` and `darker_color` are colour arithmetic on `f32` and are left out.
- The `set_color!` macro refers to an `AbstractValue::Color` variant that does not exist, so it is left out.
- Input polling through macroquad is replaced by an `InputSample` value. The button set polled is a fixed list.
- Callbacks are `Arc<dyn Fn>` closures in the source. Here they are ids with a list of abstract actions (set a property, emit a signal). Arbitrary Rust code in a callback is not modelled.
- There is no concurrency: the `Send + Sync` bounds play no part.
- Arena.ArenaTree.RemoveNode: only the per-call effects are stated. With two or more children, the index shifting in the recursion removes the wrong node or panics, so removal of all descendants is not promised. The recursion takes a `fuel` bound, and running out gives `DepthExceeded`.
- Engine wrappers that only delegate to the arena are covered by the arena's own members: `add_node`, `add_child`, `get_node*`, `get_children*`, `get_parent_id`, `get_node_id`, `get_node_type` and `remove_node`.
- `rml_macros/src/lib.rs` is an older duplicate of the format, structs and common code, so it is not part of this model. `rml_macros/src/preparse.rs` returns its input unchanged.
- Strings.TrimStart / Strings.TrimEnd: they strip ASCII whitespace only; Rust's `trim` also strips Unicode spaces.
- Values.FromU32: the conversion goes through `as f32`, whose rounding of large integers is not modelled.
- Structs.PropertyKey.IsSignal is a plain predicate with no contract of its own.
- Format.DefinitionLineUnchanged: it covers a line that defines every listed function. For a line that defines only some functions, `InjectLine` applies the other replacements step by step.
- Logging through `println!` and `info!` is left out.
- Engine.AllValidAt: it states bounds only, each count within its route. The exact count, cut after the first consuming node, is stated by `FirstStop` and `RouteOn`.
- Engine.SecondOrderDeferred: it is a worked case with one callback that writes one property. For any queue, `DrainLeavesOnlyBound` states what a drain leaves queued.
- Engine.IsPointInsideNode: its own contract says only that the node lies in the arena. The box test is stated by `MissingGeometryIsOrigin` and `CornersInside`.
- Engine.HitList: its own contract bounds its length and places each hit inside its box. Exact membership and order hold over a consistent id map and are stated by `HitListTopmostFirst`.
- Engine.RmlEngine.HandleFrame: the current event is stated only as kept or cleared. It is cleared exactly when some registered callback ran, and that is not tracked through the loops. The same holds for `ProcessEvents`, `DispatchFrame` and the loop methods.
- Engine.RmlEngine.ProcessEvents: the current event is stated only as kept or cleared, as for `HandleFrame`. Since the constructor starts with none, it stays none between frames.
- Engine.MouseAreaNodes: its own contract bounds its length. Exact membership and order hold over a consistent id map and are stated by `MouseAreaNodesAll`.

## Findings

| source | as written | input that shows it | evidently intended | confidence | as-written member | corrected member |
|---|---|---|---|---|---|---|
| rml_core/src/lib.rs:391 | after a real change the statement `true;` discards its value, and the function falls through to `false` | node "a" with property "p" (id 0) = Bool(false), id 0 bound to callback 7; setting "a"."p" to Bool(true) changes the value and queues 7, yet returns false | return `true` exactly when the value changed | not executed | `Engine.SetAsWritten`, `Engine.SetReturnAsWritten`, `Engine.SetReturnDiscarded` | `Engine.SetOn`, `Engine.RmlEngine.SetPropertyOfNode` |
