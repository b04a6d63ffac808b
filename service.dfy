/** The workflow service: the four in-memory registries of Program.cs:26-29 and
    the nine request handlers that check and update them (Program.cs:32-210). */
module Service {
  import opened Models
  import opened Lookup
  import opened Catalog
  import opened Registry
  import opened Engine

  class WorkflowService {
    var definitions: map<string, WorkflowDefinition>
    var instances: map<string, WorkflowInstance>
    var globalStates: map<string, State>
    var globalActions: map<string, WorkflowAction>

    /** The invariant every handler keeps: the catalog, every definition and
        every instance are valid, and each entry is stored under its own id. */
    ghost predicate Valid()
      reads this
    {
      CatalogValid(globalStates, globalActions)
      && DefinitionsValid(globalStates, globalActions, definitions)
      && InstancesValid(definitions, instances)
    }

    /** The registries start empty. */
    constructor ()
      ensures Valid()
      ensures definitions == map[] && instances == map[] && globalStates == map[] && globalActions == map[]
    {
      definitions, instances, globalStates, globalActions := map[], map[], map[], map[];
    }

    /** Registers a new catalog state (Program.cs:32-48). */
    method CreateState(id: string, name: string, isFinal: bool, isInitial: bool, enabled: bool)
      returns (r: Response<State>)
      requires Valid()
      modifies this`globalStates
      ensures Valid()
      ensures r == if id in old(globalStates) then BadRequest(StateIdExists)
                   else Ok(State(id, name, isInitial, isFinal, enabled))
      ensures globalStates == if r.Ok? then old(globalStates)[id := r.value] else old(globalStates)
    {
      if id in globalStates {
        return BadRequest(StateIdExists);
      }
      var state := State(id, name, isInitial, isFinal, enabled);
      AddStateKeepsCatalogValid(globalStates, globalActions, state);
      CatalogGrowthKeepsValid(globalStates, globalActions, globalStates[id := state], globalActions, definitions);
      globalStates := globalStates[id := state];
      return Ok(state);
    }

    /** Registers a new catalog action (Program.cs:51-81): the duplicate check,
        then each source in list order (existence before finality), then the
        target. */
    method CreateAction(id: string, name: string, fromStates: seq<string>, toState: string, enabled: bool)
      returns (r: Response<WorkflowAction>)
      requires Valid()
      modifies this`globalActions
      ensures Valid()
      ensures r == if id in old(globalActions) then BadRequest(ActionIdExists)
                   else if FirstBadSource(globalStates, fromStates).Some? then
                     BadRequest(FirstBadSource(globalStates, fromStates).value)
                   else if toState !in globalStates then BadRequest(TargetStateNotFound(toState))
                   else Ok(WorkflowAction(id, name, fromStates, toState, enabled))
      ensures r.Ok? <==> id !in old(globalActions) && SourcesUsable(globalStates, fromStates) && toState in globalStates
      ensures globalActions == if r.Ok? then old(globalActions)[id := r.value] else old(globalActions)
    {
      if id in globalActions {
        return BadRequest(ActionIdExists);
      }
      var i := 0;
      while i < |fromStates|
        invariant 0 <= i <= |fromStates|
        invariant forall j :: 0 <= j < i ==> fromStates[j] in globalStates && !globalStates[fromStates[j]].isFinal
      {
        var fromStateId := fromStates[i];
        if fromStateId !in globalStates {
          return BadRequest(SourceStateNotFound(fromStateId));
        }
        if globalStates[fromStateId].isFinal {
          return BadRequest(SourceStateFinal(fromStateId));
        }
        i := i + 1;
      }
      if toState !in globalStates {
        return BadRequest(TargetStateNotFound(toState));
      }
      var action := WorkflowAction(id, name, fromStates, toState, enabled);
      CatalogGrowthKeepsValid(globalStates, globalActions, globalStates, globalActions[id := action], definitions);
      globalActions := globalActions[id := action];
      return Ok(action);
    }

    /** Appends a catalog state to a definition (Program.cs:84-102). */
    method AddStateToDefinition(defId: string, stateId: string) returns (r: Response<State>)
      requires Valid()
      modifies this`definitions
      ensures Valid()
      ensures r == if defId !in old(definitions) then NotFound(DefinitionNotFound)
                   else if stateId !in globalStates then BadRequest(StateNotInCatalog)
                   else if HasState(old(definitions)[defId].states, stateId) then BadRequest(StateAlreadyInDefinition)
                   else if globalStates[stateId].isInitial && HasInitial(old(definitions)[defId].states) then
                     BadRequest(SecondInitialState)
                   else Ok(globalStates[stateId])
      ensures definitions == if r.Ok? then
                               old(definitions)[defId := old(definitions)[defId].(states := old(definitions)[defId].states + [r.value])]
                             else old(definitions)
    {
      if defId !in definitions {
        return NotFound(DefinitionNotFound);
      }
      var def := definitions[defId];
      if stateId !in globalStates {
        return BadRequest(StateNotInCatalog);
      }
      var state := globalStates[stateId];
      if HasState(def.states, state.id) {
        return BadRequest(StateAlreadyInDefinition);
      }
      if state.isInitial && HasInitial(def.states) {
        return BadRequest(SecondInitialState);
      }
      var def' := def.(states := def.states + [state]);
      AppendStateKeepsValid(globalStates, globalActions, def, state);
      DefinitionGrowthKeepsInstancesValid(definitions, instances, defId, def');
      definitions := definitions[defId := def'];
      return Ok(state);
    }

    /** Appends a catalog action to a definition (Program.cs:105-128): the
        definition, the catalog entry, the duplicate check, then the target,
        then each source in list order. */
    method AddActionToDefinition(defId: string, actionId: string) returns (r: Response<WorkflowAction>)
      requires Valid()
      modifies this`definitions
      ensures Valid()
      ensures r == if defId !in old(definitions) then NotFound(DefinitionNotFound)
                   else if actionId !in globalActions then BadRequest(ActionNotInCatalog)
                   else if HasAction(old(definitions)[defId].actions, actionId) then BadRequest(ActionAlreadyInDefinition)
                   else if !HasState(old(definitions)[defId].states, globalActions[actionId].toState) then
                     BadRequest(TargetNotInDefinition)
                   else if FirstMissingSource(old(definitions)[defId].states, globalActions[actionId].fromStates).Some? then
                     BadRequest(SourceNotInDefinition(
                       FirstMissingSource(old(definitions)[defId].states, globalActions[actionId].fromStates).value))
                   else Ok(globalActions[actionId])
      ensures r.Ok? <==> defId in old(definitions) && actionId in globalActions
                         && !HasAction(old(definitions)[defId].actions, actionId)
                         && ClosedOver(old(definitions)[defId].states, globalActions[actionId])
      ensures definitions == if r.Ok? then
                               old(definitions)[defId := old(definitions)[defId].(actions := old(definitions)[defId].actions + [r.value])]
                             else old(definitions)
    {
      if defId !in definitions {
        return NotFound(DefinitionNotFound);
      }
      var def := definitions[defId];
      if actionId !in globalActions {
        return BadRequest(ActionNotInCatalog);
      }
      var actionToAdd := globalActions[actionId];
      if HasAction(def.actions, actionToAdd.id) {
        return BadRequest(ActionAlreadyInDefinition);
      }
      if !HasState(def.states, actionToAdd.toState) {
        return BadRequest(TargetNotInDefinition);
      }
      var i := 0;
      while i < |actionToAdd.fromStates|
        invariant 0 <= i <= |actionToAdd.fromStates|
        invariant forall j :: 0 <= j < i ==> HasState(def.states, actionToAdd.fromStates[j])
      {
        var fromStateId := actionToAdd.fromStates[i];
        if !HasState(def.states, fromStateId) {
          return BadRequest(SourceNotInDefinition(fromStateId));
        }
        i := i + 1;
      }
      var def' := def.(actions := def.actions + [actionToAdd]);
      AppendActionKeepsValid(globalStates, globalActions, def, actionToAdd);
      DefinitionGrowthKeepsInstancesValid(definitions, instances, defId, def');
      definitions := definitions[defId := def'];
      return Ok(actionToAdd);
    }

    /** Registers a new, empty definition (Program.cs:131-139). */
    method CreateDefinition(id: string, description: string) returns (r: Response<WorkflowDefinition>)
      requires Valid()
      modifies this`definitions
      ensures Valid()
      ensures r == if id in old(definitions) then BadRequest(DefinitionIdExists)
                   else Ok(WorkflowDefinition(id, description, [], []))
      ensures definitions == if r.Ok? then old(definitions)[id := r.value] else old(definitions)
      ensures r.Ok? ==> GetDefinition(id) == r
    {
      if id in definitions {
        return BadRequest(DefinitionIdExists);
      }
      var def := WorkflowDefinition(id, description, [], []);
      DefinitionGrowthKeepsInstancesValid(definitions, instances, id, def);
      definitions := definitions[id := def];
      return Ok(def);
    }

    /** Looks a definition up by id (Program.cs:142-146). */
    function GetDefinition(id: string): (r: Response<WorkflowDefinition>)
      reads this
      ensures r.Ok? <==> id in definitions
      ensures r.Ok? ==> r.value == definitions[id]
      ensures !r.Ok? ==> r == NotFound(DefinitionNotFound)
    {
      if id in definitions then Ok(definitions[id]) else NotFound(DefinitionNotFound)
    }

    /** Starts an instance of a definition (Program.cs:149-171). */
    method CreateInstance(defId: string, instanceId: string) returns (r: Response<WorkflowInstance>)
      requires Valid()
      modifies this`instances
      ensures Valid()
      ensures r == if defId !in definitions then NotFound(DefinitionNotFound)
                   else if instanceId in old(instances) then BadRequest(InstanceIdExists)
                   else if FirstInitialEnabled(definitions[defId].states).None? then BadRequest(NoEnabledInitialState)
                   else Ok(WorkflowInstance(instanceId, defId, FirstInitialEnabled(definitions[defId].states).value.id, []))
      ensures instances == if r.Ok? then old(instances)[instanceId := r.value] else old(instances)
      ensures r.Ok? ==> GetInstance(instanceId) == r
    {
      if defId !in definitions {
        return NotFound(DefinitionNotFound);
      }
      var def := definitions[defId];
      if instanceId in instances {
        return BadRequest(InstanceIdExists);
      }
      var initial := FirstInitialEnabled(def.states);
      if initial.None? {
        return BadRequest(NoEnabledInitialState);
      }
      InitialStateIsEnabledState(def.states);
      var instance := WorkflowInstance(instanceId, defId, initial.value.id, []);
      PutInstanceKeepsValid(definitions, instances, instance);
      instances := instances[instance.id := instance];
      return Ok(instance);
    }

    /** Executes an action on an instance (Program.cs:174-201); `now` stands
        for the clock reading stored in the history entry. */
    method ExecuteAction(id: string, actionId: string, now: int) returns (r: Response<WorkflowInstance>)
      requires Valid()
      modifies this`instances
      ensures Valid()
      ensures r == if id !in old(instances) then NotFound(InstanceNotFound)
                   else Transition(definitions, old(instances)[id], actionId, now)
      ensures instances == if r.Ok? then old(instances)[id := r.value] else old(instances)
      ensures r.Ok? ==> GetInstance(id) == r
      ensures r.Ok? ==> |r.value.history| == |old(instances)[id].history| + 1
    {
      if id !in instances {
        return NotFound(InstanceNotFound);
      }
      var instance := instances[id];
      r := Transition(definitions, instance, actionId, now);
      if r.Ok? {
        TransitionKeepsInstanceValid(definitions, instance, actionId, now);
        PutInstanceKeepsValid(definitions, instances, r.value);
        instances := instances[id := r.value];
      }
    }

    /** Looks an instance up by id (Program.cs:204-210). */
    function GetInstance(id: string): (r: Response<WorkflowInstance>)
      reads this
      ensures r.Ok? <==> id in instances
      ensures r.Ok? ==> r.value == instances[id]
      ensures !r.Ok? ==> r == NotFound(InstanceNotFound)
    {
      if id in instances then Ok(instances[id]) else NotFound(InstanceNotFound)
    }
  }
}
