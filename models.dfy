/** The entities of the workflow engine, as values.

  No handler changes a State or a WorkflowAction after it has been created,
  and a definition or an instance object is only ever reachable from its own
  registry entry, so every entity is an immutable value and an update in place
  becomes a new value stored under the same key.
 */
module Models {

  datatype Option<+T> = None | Some(value: T)

  /** A reusable state template of the global catalog. */
  datatype State = State(id: string, name: string, isInitial: bool, isFinal: bool, enabled: bool)

  /** A reusable transition template: from any of `fromStates` to `toState`. */
  datatype WorkflowAction = WorkflowAction(
    id: string, name: string, fromStates: seq<string>, toState: string, enabled: bool)

  /** A named graph of catalog states and actions, both kept in insertion order. */
  datatype WorkflowDefinition = WorkflowDefinition(
    id: string, description: string, states: seq<State>, actions: seq<WorkflowAction>)

  /** One executed transition: the action's id and the time it was executed at. */
  datatype WorkflowHistoryEntry = WorkflowHistoryEntry(actionId: string, timestamp: int)

  /** A running execution of a definition. */
  datatype WorkflowInstance = WorkflowInstance(
    id: string, definitionId: string, currentStateId: string, history: seq<WorkflowHistoryEntry>)

  /** Why a handler refused a request; one constructor per failing branch. */
  datatype Reason =
    | StateIdExists
    | ActionIdExists
    | SourceStateNotFound(stateId: string)
    | SourceStateFinal(stateId: string)
    | TargetStateNotFound(stateId: string)
    | DefinitionNotFound
    | StateNotInCatalog
    | StateAlreadyInDefinition
    | SecondInitialState
    | ActionNotInCatalog
    | ActionAlreadyInDefinition
    | TargetNotInDefinition
    | SourceNotInDefinition(stateId: string)
    | DefinitionIdExists
    | InstanceIdExists
    | NoEnabledInitialState
    | InstanceNotFound
    | InstanceDefinitionMissing
    | InvalidOrDisabledAction
    | NotValidFromCurrentState
    | TargetInvalidOrDisabled
    | CurrentStateFinal

  /** A handler's answer: the payload, or one of the two failure categories it uses. */
  datatype Response<+T> = Ok(value: T) | BadRequest(reason: Reason) | NotFound(reason: Reason)
}
