/** Workflow instances running against a definition (Program.cs:149-210). */
module Engine {
  import opened Models
  import opened Lookup
  import opened Catalog
  import opened Registry

  /** The first state of the list carrying `id` exists and is enabled
      (Program.cs:189-190). */
  predicate IsEnabledStateOf(states: seq<State>, id: string) {
    var s := FindState(states, id);
    s.Some? && s.value.enabled
  }

  /** With unique ids, a state of the list is reported enabled exactly when it is. */
  lemma IsEnabledStateOfUnique(states: seq<State>, s: State)
    requires UniqueStateIds(states) && s in states
    ensures IsEnabledStateOf(states, s.id) <==> s.enabled
  {
    FindStateUnique(states, s);
  }

  /** An id that no state of the list carries is never an enabled state. */
  lemma IsEnabledStateOfMissing(states: seq<State>, id: string)
    requires !HasState(states, id)
    ensures !IsEnabledStateOf(states, id)
  {
  }

  /** The instance invariant: its definition exists and its current state is an
      enabled state of that definition. */
  predicate InstanceValid(definitions: map<string, WorkflowDefinition>, inst: WorkflowInstance) {
    inst.definitionId in definitions
    && IsEnabledStateOf(definitions[inst.definitionId].states, inst.currentStateId)
  }

  /** The first state of the list carrying `id` exists and is final
      (Program.cs:194); an id with no state is not final. */
  predicate IsFinalStateOf(states: seq<State>, id: string) {
    var s := FindState(states, id);
    s.Some? && s.value.isFinal
  }

  /** With unique ids, a state of the list is reported final exactly when it is. */
  lemma IsFinalStateOfUnique(states: seq<State>, s: State)
    requires UniqueStateIds(states) && s in states
    ensures IsFinalStateOf(states, s.id) <==> s.isFinal
  {
    FindStateUnique(states, s);
  }

  /** An id that no state of the list carries is reported not final, where the
      search at Program.cs:194 would throw; a valid instance never gets here. */
  lemma IsFinalStateOfMissing(states: seq<State>, id: string)
    requires !HasState(states, id)
    ensures !IsFinalStateOf(states, id)
  {
  }

  /** Under the instance invariant the current state is always found, so the
      final-state test at Program.cs:194 never meets a missing state. */
  lemma CurrentStateFound(definitions: map<string, WorkflowDefinition>, inst: WorkflowInstance)
    requires InstanceValid(definitions, inst)
    ensures HasState(definitions[inst.definitionId].states, inst.currentStateId)
  {
  }

  /** What executing `actionId` on `inst` yields once the instance has been found:
      the guards of Program.cs:179-195 in their order, then the moved instance. */
  function Transition(
    definitions: map<string, WorkflowDefinition>, inst: WorkflowInstance, actionId: string, now: int)
    : (r: Response<WorkflowInstance>)
    ensures r.Ok? <==>
      inst.definitionId in definitions
      && var def := definitions[inst.definitionId];
         HasAction(def.actions, actionId)
         && var a := FindAction(def.actions, actionId).value;
            a.enabled && inst.currentStateId in a.fromStates && IsEnabledStateOf(def.states, a.toState)
            && !IsFinalStateOf(def.states, inst.currentStateId)
    ensures r.Ok? ==>
      var a := FindAction(definitions[inst.definitionId].actions, actionId).value;
      r.value.id == inst.id && r.value.definitionId == inst.definitionId
      && r.value.currentStateId == a.toState
      && r.value.history == inst.history + [WorkflowHistoryEntry(actionId, now)]
    ensures !r.Ok? ==> r.BadRequest? || r == NotFound(InstanceDefinitionMissing)
  {
    if inst.definitionId !in definitions then NotFound(InstanceDefinitionMissing)
    else
      var def := definitions[inst.definitionId];
      var action := FindAction(def.actions, actionId);
      if action.None? || !action.value.enabled then BadRequest(InvalidOrDisabledAction)
      else if inst.currentStateId !in action.value.fromStates then BadRequest(NotValidFromCurrentState)
      else if !IsEnabledStateOf(def.states, action.value.toState) then BadRequest(TargetInvalidOrDisabled)
      else if IsFinalStateOf(def.states, inst.currentStateId) then BadRequest(CurrentStateFinal)
      else Ok(inst.(currentStateId := action.value.toState,
                    history := inst.history + [WorkflowHistoryEntry(action.value.id, now)]))
  }

  /** A successful transition keeps the instance valid: it lands on an enabled
      state of its definition. */
  lemma TransitionKeepsInstanceValid(
    definitions: map<string, WorkflowDefinition>, inst: WorkflowInstance, actionId: string, now: int)
    requires Transition(definitions, inst, actionId, now).Ok?
    ensures InstanceValid(definitions, Transition(definitions, inst, actionId, now).value)
  {
  }

  /** Every registered instance is valid and stored under its own id. */
  predicate InstancesValid(definitions: map<string, WorkflowDefinition>, instances: map<string, WorkflowInstance>) {
    forall id :: id in instances ==> instances[id].id == id && InstanceValid(definitions, instances[id])
  }

  /** Storing a valid instance under its own id keeps the instance registry valid. */
  lemma PutInstanceKeepsValid(
    definitions: map<string, WorkflowDefinition>, instances: map<string, WorkflowInstance>, inst: WorkflowInstance)
    requires InstancesValid(definitions, instances) && InstanceValid(definitions, inst)
    ensures InstancesValid(definitions, instances[inst.id := inst])
  {
    var instances' := instances[inst.id := inst];
    forall id | id in instances'
      ensures instances'[id].id == id && InstanceValid(definitions, instances'[id])
    {
      if id != inst.id {
        assert instances'[id] == instances[id];
      }
    }
  }

  /** Replacing a definition by one whose state list extends the old one (or
      registering a new one) keeps every instance valid: the states instances
      sit in are still there, enabled, and found by id. */
  lemma DefinitionGrowthKeepsInstancesValid(
    definitions: map<string, WorkflowDefinition>, instances: map<string, WorkflowInstance>,
    defId: string, d: WorkflowDefinition)
    requires InstancesValid(definitions, instances)
    requires UniqueStateIds(d.states)
    requires defId in definitions ==> definitions[defId].states <= d.states
    ensures InstancesValid(definitions[defId := d], instances)
  {
    var definitions' := definitions[defId := d];
    forall id | id in instances
      ensures InstanceValid(definitions', instances[id])
    {
      var inst := instances[id];
      assert InstanceValid(definitions, inst);
      if inst.definitionId == defId {
        var before := definitions[defId].states;
        var c := FindState(before, inst.currentStateId).value;
        var k :| 0 <= k < |before| && before[k] == c;
        assert d.states[k] == c;
        FindStateUnique(d.states, c);
      }
    }
  }

  /** The state CreateInstance starts at is an enabled state of the definition. */
  lemma InitialStateIsEnabledState(states: seq<State>)
    requires UniqueStateIds(states) && FirstInitialEnabled(states).Some?
    ensures IsEnabledStateOf(states, FirstInitialEnabled(states).value.id)
  {
    FindStateUnique(states, FirstInitialEnabled(states).value);
  }

  /** No action of a valid definition starts from a final state: every source of
      every action is a state of the definition, and it is not final. */
  lemma ActionSourceNotFinal(
    cs: map<string, State>, ca: map<string, WorkflowAction>, d: WorkflowDefinition,
    a: WorkflowAction, current: string)
    requires CatalogValid(cs, ca) && DefinitionValid(cs, ca, d)
    requires a in d.actions && current in a.fromStates
    ensures FindState(d.states, current).Some? && !FindState(d.states, current).value.isFinal
  {
    assert ClosedOver(d.states, a);
    assert SourcesUsable(cs, ca[a.id].fromStates);
  }

  /** Once an instance sits in a final state of a valid definition, no action of
      that definition lists it as a source, so no transition can leave it. */
  lemma FinalStateIsTerminal(
    cs: map<string, State>, ca: map<string, WorkflowAction>, d: WorkflowDefinition, current: string)
    requires CatalogValid(cs, ca) && DefinitionValid(cs, ca, d)
    requires FindState(d.states, current).Some? && FindState(d.states, current).value.isFinal
    ensures forall a :: a in d.actions ==> current !in a.fromStates
  {
    forall a | a in d.actions
      ensures current !in a.fromStates
    {
      if current in a.fromStates {
        ActionSourceNotFinal(cs, ca, d, a, current);
      }
    }
  }

  /** Under the catalog and definition invariants the final-state guard of
      Program.cs:194 never decides the outcome: a valid instance can only be in
      a final state that no action of its definition starts from. */
  lemma FinalGuardNeverFires(
    cs: map<string, State>, ca: map<string, WorkflowAction>, definitions: map<string, WorkflowDefinition>,
    inst: WorkflowInstance, actionId: string, now: int)
    requires CatalogValid(cs, ca) && DefinitionsValid(cs, ca, definitions) && InstanceValid(definitions, inst)
    ensures Transition(definitions, inst, actionId, now) != BadRequest(CurrentStateFinal)
    ensures Transition(definitions, inst, actionId, now) != NotFound(InstanceDefinitionMissing)
  {
    var def := definitions[inst.definitionId];
    var action := FindAction(def.actions, actionId);
    if action.Some? && inst.currentStateId in action.value.fromStates {
      ActionSourceNotFinal(cs, ca, def, action.value, inst.currentStateId);
    }
  }

  /** Once an instance is in a final state, no action execution on it succeeds. */
  lemma NoTransitionFromFinal(
    definitions: map<string, WorkflowDefinition>, inst: WorkflowInstance, actionId: string, now: int)
    requires inst.definitionId in definitions
    requires IsFinalStateOf(definitions[inst.definitionId].states, inst.currentStateId)
    ensures !Transition(definitions, inst, actionId, now).Ok?
  {
  }
}
