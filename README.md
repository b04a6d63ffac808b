# Workflow engine (InfoTask) in Dafny

The InfoTask service keeps four in-memory registries: the catalog of reusable
states, the catalog of reusable actions (transitions from a list of source
states to one target state), the workflow definitions built from catalog
entries, and the running workflow instances. Nine request handlers check
and update them:

- create a catalog state;
- create a catalog action;
- create a definition, and get one;
- add a catalog state to a definition;
- add a catalog action to a definition;
- create an instance at the definition's first enabled initial state;
- execute an action on an instance;
- get an instance.

Each handler answers with the entity, or with BadRequest or NotFound.

The model is split into six modules:

- `Models` (`models.dfy`): the entities as value datatypes, plus the response
  type `Response<T> = Ok | BadRequest(reason) | NotFound(reason)`. A `Reason`
  constructor stands for each refusing branch, in place of the message text.
- `Lookup` (`lookup.dfy`): the `Any`/`FirstOrDefault` queries the handlers run
  over a definition's lists. They are first-match searches, with lemmas that
  pin down which element they return.
- `Catalog` (`catalog.dfy`): the catalog invariant, and what action creation
  reports for the first unusable source.
- `Registry` (`registry.dfy`): the definition invariant. It requires unique ids,
  at most one initial state, that every action refers only to states of its
  definition, and that every entry is the catalog's entry. It also holds the
  lemmas showing that the two "add" handlers keep the invariant.
- `Engine` (`engine.dfy`): the instance invariant (the current state is an
  enabled state of the instance's definition) and the transition that action
  execution performs, stated as a pure function of the instance and the
  registries. Lemmas show that the transition keeps the invariant, that no
  action leaves a final state, and that two of the source's guards can never
  fire under the invariants.
- `Service` (`service.dfy`): class `WorkflowService`. Its four map fields are the
  four dictionaries, and each mutating handler is a method that modifies only
  the registry the source writes; the two lookups are functions. Every method keeps `Valid()`, the conjunction of
  the three invariants. Its `ensures` give the answer as the source's guard
  chain in order, and the new registry contents.

`Scenario` (`scenario.dfy`) builds a three-state review workflow through the
handlers and runs an instance of it to its final state. Every answer along the
way follows from the contracts alone.

Three facts about the code shape the model:

- The code answers NotFound only for a missing definition or instance
  (Program.cs:87, 108, 145, 152, 177, 180, 207). Everything else, including
  duplicates and missing catalog entries, gets BadRequest.
- Action creation checks each source in list order, existence first and then
  finality, and stops at the first bad one (Program.cs:57-64); only then is
  the target checked. `FirstBadSource` states this order.
- A definition stores the catalog's own state and action objects
  (Program.cs:100, 126), and no handler ever mutates them after creation, so
  value datatypes give the same observable behaviour.

## Model

| member | source | states |
|---|---|---|
| Lookup.FirstIndex | Program.cs:182 | the position found is the first whose element satisfies the predicate; none exactly when no element does |
| Lookup.FirstOrNone | Program.cs:158 | the result is an element of the list satisfying the predicate; none exactly when no element does; `Lookup.FirstOrNoneIsFirst` pins it to the earliest such element |
| Lookup.FirstOrNoneIsFirst | Program.cs:158 | the generic search returns the earliest element satisfying the predicate, whatever follows it, which is `FirstOrDefault`'s meaning |
| Lookup.HasState | Program.cs:93 | true exactly when some state of the list carries the id; the same test is used at Program.cs:117 and 122 |
| Lookup.HasInitial | Program.cs:97 | true exactly when some state of the list is initial |
| Lookup.HasAction | Program.cs:113 | true exactly when some action of the list carries the id |
| Lookup.FindState | Program.cs:189 | the state found carries the requested id and is in the list; none exactly when no state of the list has that id |
| Lookup.FindAction | Program.cs:182 | the action found carries the requested id and is in the list; none exactly when no action of the list has that id |
| Lookup.FirstInitialEnabled | Program.cs:158-160 | the state found is in the list, initial and enabled; none exactly when no state is both initial and enabled |
| Lookup.FindStateIsFirst | Program.cs:189 | the lookup by id returns the earliest state with that id, whatever states follow it |
| Lookup.FindActionIsFirst | Program.cs:182 | the lookup by id returns the earliest action with that id, whatever actions follow it |
| Lookup.FirstInitialEnabledIsFirst | Program.cs:158 | the initial-state search returns the earliest state that is both initial and enabled |
| Lookup.FindStateUnique | Program.cs:194 | in a list with unique ids, looking up a member's id returns exactly that member |
| Lookup.FindActionUnique | Program.cs:182 | in a list with unique ids, looking up a member's id returns exactly that member |
| Lookup.HasStateAppend | Program.cs:100 | after appending a state, the list has an id exactly when the old list had it or the appended state carries it |
| Catalog.FirstBadSource | Program.cs:57-64 | no report exactly when every source is a catalog state that is not final; otherwise the report names the first source in list order that is missing ("not found") or final ("final"), with every earlier source usable |
| Catalog.AddStateKeepsCatalogValid | Program.cs:46 | registering a state under a fresh id keeps the catalog invariant |
| Registry.FirstMissingSource | Program.cs:120-124 | no report exactly when every source of the action is a state of the definition; otherwise the first one in list order that is not |
| Registry.InitialChoiceIsUnique | Program.cs:158 | with at most one initial state, the instance's starting state is that state whenever it is enabled, independent of list order |
| Registry.AppendStateKeepsValid | Program.cs:93-100 | appending a catalog state that passes the duplicate and single-initial checks keeps unique ids, at most one initial state and closure of every action |
| Registry.AppendActionKeepsValid | Program.cs:113-126 | appending a catalog action that is not a duplicate and whose target and sources are all in the definition keeps the definition invariant |
| Registry.CatalogGrowthKeepsValid | Program.cs:46-79 | adding catalog entries under fresh ids keeps every definition valid |
| Engine.IsEnabledStateOf | Program.cs:189-190 | true exactly when the first state of the list carrying the id exists and is enabled |
| Engine.IsEnabledStateOfUnique | Program.cs:189-190 | with unique ids, a state of the list is reported enabled exactly when it is enabled |
| Engine.IsEnabledStateOfMissing | Program.cs:189-190 | an id that no state carries is never an enabled state, as the null test at line 190 refuses it |
| Engine.IsFinalStateOf | Program.cs:194 | true exactly when the first state of the list carrying the id exists and is final; an id with no state is taken as not final, where the source's `First` would throw |
| Engine.IsFinalStateOfUnique | Program.cs:194 | with unique ids, a state of the list is reported final exactly when it is final |
| Engine.IsFinalStateOfMissing | Program.cs:194 | an id that no state carries is reported not final |
| Engine.CurrentStateFound | Program.cs:194 | under the instance invariant the current state is a state of the definition, so the `First` at line 194 always finds it |
| Engine.Transition | Program.cs:179-198 | success exactly when the definition exists, the action is in it and enabled, the current state is one of its sources, its target is an enabled state of the definition and the current state is not final; on success only the current state changes, to the action's target, and the history gains exactly one entry (action id, time); a failure is BadRequest except for a missing definition, which is NotFound |
| Engine.TransitionKeepsInstanceValid | Program.cs:189-197 | a successful transition lands on an enabled state of the instance's definition |
| Engine.PutInstanceKeepsValid | Program.cs:169 | storing a valid instance under its own id keeps every instance valid |
| Engine.DefinitionGrowthKeepsInstancesValid | Program.cs:100-137 | replacing a definition by one whose state list extends it, or registering a new one, keeps every instance's current state an enabled state of its definition |
| Engine.InitialStateIsEnabledState | Program.cs:158-166 | the state an instance starts in is an enabled state of its definition, as found by id |
| Engine.ActionSourceNotFinal | Program.cs:62-63 | in a valid definition every source of every action is a state of the definition, and not a final one |
| Engine.FinalStateIsTerminal | Program.cs:193-195 | no action of a valid definition lists a final state of it as a source |
| Engine.FinalGuardNeverFires | Program.cs:179-195 | under the invariants, the missing-definition guard and the final-state guard never decide the outcome of action execution |
| Engine.NoTransitionFromFinal | Program.cs:193-195 | once the current state is final, no action execution on the instance succeeds |
| Service.WorkflowService.constructor | Program.cs:26-29 | the four registries start empty, and the invariant holds |
| Service.WorkflowService.CreateState | Program.cs:32-48 | refused exactly when the id is taken; otherwise the state with the given fields is added under its id and nothing else changes |
| Service.WorkflowService.CreateAction | Program.cs:51-81 | duplicate id first, then the first bad source in list order, then a missing target; success exactly when the id is fresh, every source usable and the target exists; only then is the action added |
| Service.WorkflowService.AddStateToDefinition | Program.cs:84-102 | NotFound for a missing definition, then a missing catalog state, a state already in the definition, a second initial state; on success the definition's state list is the old one with the catalog state appended |
| Service.WorkflowService.AddActionToDefinition | Program.cs:105-128 | NotFound for a missing definition, then a missing catalog action, a duplicate, a target outside the definition, the first source outside it; success exactly when the action is new and closed over the definition's states; then only the action list grows, by that action |
| Service.WorkflowService.CreateDefinition | Program.cs:131-139 | refused exactly when the id is taken; otherwise an empty definition is stored and a subsequent get returns it |
| Service.WorkflowService.GetDefinition | Program.cs:142-146 | the stored definition when the id is registered, NotFound otherwise |
| Service.WorkflowService.CreateInstance | Program.cs:149-171 | NotFound for a missing definition before a taken instance id, then no enabled initial state; on success the instance is at the first enabled initial state with empty history, is stored, and a subsequent get returns it |
| Service.WorkflowService.ExecuteAction | Program.cs:174-201 | NotFound for a missing instance, otherwise the transition's outcome; a refused action leaves the registry unchanged, a successful one replaces the instance by the moved one, whose history is one entry longer |
| Service.WorkflowService.GetInstance | Program.cs:204-210 | the stored instance when the id is registered, NotFound otherwise |
| Scenario.CatalogStates | Program.cs:32-48 | the catalog ends with exactly the three states, and the returned answer to a fourth state under a taken id is the duplicate refusal |
| Scenario.CatalogActions | Program.cs:51-81 | the catalog ends with exactly the two actions, and the returned answer to an action whose second source is final is the refusal naming that source |
| Scenario.DefinitionStart | Program.cs:105-139 | the returned answer to adding an action before its target is in the fresh definition is the target refusal; the definition ends holding only the initial state |
| Scenario.DefinitionStates | Program.cs:84-102 | the remaining states are appended in order |
| Scenario.FlowStatesCloseActions | Program.cs:113-124 | both actions of the example are closed over its three states |
| Scenario.DefinitionActions | Program.cs:105-128 | both actions are appended once their states are present |
| Scenario.Start | Program.cs:149-171 | the instance starts at the initial state with empty history |
| Scenario.FlowTransitions | Program.cs:182-198 | an action that does not leave the current state is refused, the two moves append one history entry each, and from the final state every action at every time is refused |
| Scenario.Execute | Program.cs:174-201 | executing an action on the example instance yields the transition's outcome and stores the moved instance |

## Left out

- Web host plumbing: the builder, OpenAPI registration, routing, argument binding and `app.Run()` (Program.cs:3-23, 212). These are framework calls with no logic.
- Response wrapping: the result helpers belong to a foreign library. Only the category (Ok, BadRequest, NotFound) and a reason are kept; the message text is dropped.
- The clock: `DateTime.UtcNow` (Program.cs:198) is a parameter `now` of `ExecuteAction`. Nothing relates successive readings, so non-decreasing history timestamps are not stated.
- Concurrency: the dictionaries are shared by concurrent requests without synchronisation. The model runs one handler at a time.
- Object identity: the C# code stores the same `State`, `WorkflowAction` and `List` objects in the catalog and in definitions, and updates a definition or an instance object in place. The model uses values and writes the updated value back under the same key. No handler mutates a shared state or action, so no observable behaviour is lost; object identity itself is not modelled.
- Engine.IsFinalStateOf: an id that no state of the list carries is reported not final, where `First` at Program.cs:194 would throw; `Engine.IsFinalStateOfMissing` states this reading and `Engine.CurrentStateFound` shows a valid instance never reaches it.
- Engine.Transition: where `First` at Program.cs:194 would throw because the current state is not in the definition, the model treats the state as not final. `InstancesValid`, which every handler keeps, makes that case unreachable. `Engine.FinalGuardNeverFires` and the instance invariant show the lookup always finds the state.
- Service.WorkflowService.ExecuteAction: the guard chain is stated once, in `Engine.Transition`, and the method applies it. The in-place assignment of the instance's fields becomes storing the moved instance value.
- Models/DefinitionBuildRequest.cs is not part of this model; no handler refers to it.
- C# `required` members, nullability and default initialisers (Models/*.cs): every field is always set by the handlers, so only the empty lists a new definition or instance starts with are modelled. The `Enabled = true` default is never observed, because the handlers always pass `enabled` explicitly.
