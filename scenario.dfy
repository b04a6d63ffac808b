/** A client of the service: a three-state review workflow is built and run to
    its final state, and every outcome along the way follows from the handlers'
    contracts and the lemmas about the lookups. */
module Scenario {
  import opened Models
  import opened Lookup
  import opened Registry
  import opened Engine
  import opened Service

  const Draft := State("S0", "Draft", true, false, true)
  const Review := State("S1", "Review", false, false, true)
  const Done := State("S2", "Done", false, true, true)
  const Submit := WorkflowAction("A", "submit", ["S0"], "S1", true)
  const Approve := WorkflowAction("B", "approve", ["S1"], "S2", true)
  const Flow := WorkflowDefinition("D", "review flow", [Draft, Review, Done], [Submit, Approve])

  const StateCatalog := map["S0" := Draft, "S1" := Review, "S2" := Done]
  const ActionCatalog := map["A" := Submit, "B" := Approve]
  const Started := WorkflowInstance("I", "D", "S0", [])
  const InReview := Started.(currentStateId := "S1", history := [WorkflowHistoryEntry("A", 11)])
  const Finished := InReview.(currentStateId := "S2", history := InReview.history + [WorkflowHistoryEntry("B", 12)])

  /** The catalog states; a second state under a taken id is refused. */
  method CatalogStates(svc: WorkflowService) returns (again: Response<State>)
    requires svc.Valid() && svc.globalStates == map[] && svc.globalActions == map[]
    modifies svc`globalStates
    ensures svc.Valid() && svc.globalStates == StateCatalog
    ensures again == BadRequest(StateIdExists)
  {
    var s0 := svc.CreateState("S0", "Draft", false, true, true);
    var s1 := svc.CreateState("S1", "Review", false, false, true);
    var s2 := svc.CreateState("S2", "Done", true, false, true);
    again := svc.CreateState("S0", "Draft", false, true, true);
  }

  /** The catalog actions; an action out of a final state is refused, and the
      reported source is the first unusable one in list order. */
  method CatalogActions(svc: WorkflowService) returns (fromFinal: Response<WorkflowAction>)
    requires svc.Valid() && svc.globalStates == StateCatalog && svc.globalActions == map[]
    modifies svc`globalActions
    ensures svc.Valid() && svc.globalActions == ActionCatalog
    ensures fromFinal == BadRequest(SourceStateFinal("S2"))
  {
    var a := svc.CreateAction("A", "submit", ["S0"], "S1", true);
    var b := svc.CreateAction("B", "approve", ["S1"], "S2", true);
    fromFinal := svc.CreateAction("C", "reopen", ["S0", "S2"], "S0", true);
  }

  /** A new definition refuses an action whose target it does not hold yet. */
  method DefinitionStart(svc: WorkflowService) returns (early: Response<WorkflowAction>)
    requires svc.Valid() && svc.globalStates == StateCatalog && svc.globalActions == ActionCatalog
    requires svc.definitions == map[]
    modifies svc`definitions
    ensures svc.Valid() && "D" in svc.definitions && svc.definitions["D"] == Flow.(states := [Draft], actions := [])
    ensures early == BadRequest(TargetNotInDefinition)
  {
    var d := svc.CreateDefinition("D", "review flow");
    early := svc.AddActionToDefinition("D", "A");
    var d0 := svc.AddStateToDefinition("D", "S0");
    assert [] + [Draft] == [Draft];
  }

  /** The remaining states of the definition. */
  method DefinitionStates(svc: WorkflowService)
    requires svc.Valid() && svc.globalStates == StateCatalog
    requires "D" in svc.definitions && svc.definitions["D"] == Flow.(states := [Draft], actions := [])
    modifies svc`definitions
    ensures svc.Valid() && "D" in svc.definitions && svc.definitions["D"] == Flow.(actions := [])
  {
    var d1 := svc.AddStateToDefinition("D", "S1");
    assert [Draft] + [Review] == [Draft, Review];
    var d2 := svc.AddStateToDefinition("D", "S2");
    assert [Draft, Review] + [Done] == Flow.states;
  }

  /** The lookups the definition's action checks perform on its state list. */
  lemma FlowStatesCloseActions()
    ensures ClosedOver(Flow.states, Submit) && ClosedOver(Flow.states, Approve)
    ensures FirstMissingSource(Flow.states, Submit.fromStates) == None
    ensures FirstMissingSource(Flow.states, Approve.fromStates) == None
    ensures !HasAction([Submit], "B")
  {
    assert Flow.states[0].id == "S0" && Flow.states[1].id == "S1" && Flow.states[2].id == "S2";
  }

  /** The actions of the definition, once all their states are in it. */
  method DefinitionActions(svc: WorkflowService)
    requires svc.Valid() && svc.globalActions == ActionCatalog
    requires "D" in svc.definitions && svc.definitions["D"] == Flow.(actions := [])
    modifies svc`definitions
    ensures svc.Valid() && "D" in svc.definitions && svc.definitions["D"] == Flow
  {
    FlowStatesCloseActions();
    var da := svc.AddActionToDefinition("D", "A");
    assert [] + [Submit] == [Submit];
    var db := svc.AddActionToDefinition("D", "B");
    assert [Submit] + [Approve] == Flow.actions;
  }

  /** An instance starts in the definition's initial state with no history. */
  method Start(svc: WorkflowService)
    requires svc.Valid() && svc.instances == map[] && "D" in svc.definitions && svc.definitions["D"] == Flow
    modifies svc`instances
    ensures svc.Valid() && "I" in svc.instances && svc.instances["I"] == Started
  {
    InitialChoiceIsUnique(Flow.states, 0);
    var i := svc.CreateInstance("D", "I");
    assert i == Ok(Started);
  }

  /** The moves of the review flow: an action that does not leave the current
      state is refused, each move appends one history entry, and nothing leaves
      the final state. */
  lemma FlowTransitions(definitions: map<string, WorkflowDefinition>)
    requires "D" in definitions && definitions["D"] == Flow
    ensures Transition(definitions, Started, "B", 10) == BadRequest(NotValidFromCurrentState)
    ensures Transition(definitions, Started, "A", 11) == Ok(InReview)
    ensures Transition(definitions, InReview, "B", 12) == Ok(Finished)
    ensures forall a: string, t: int :: !Transition(definitions, Finished, a, t).Ok?
  {
    assert UniqueStateIds(Flow.states) && UniqueActionIds(Flow.actions);
    FindActionUnique(Flow.actions, Submit);
    FindActionUnique(Flow.actions, Approve);
    FindStateUnique(Flow.states, Draft);
    FindStateUnique(Flow.states, Review);
    FindStateUnique(Flow.states, Done);
    assert Started.history + [WorkflowHistoryEntry("A", 11)] == InReview.history;
    forall a: string, t: int
      ensures !Transition(definitions, Finished, a, t).Ok?
    {
      NoTransitionFromFinal(definitions, Finished, a, t);
    }
  }

  /** Executes `actionId` on the instance "I": it ends up as the transition
      says, or unchanged when the transition is refused. */
  method Execute(svc: WorkflowService, actionId: string, now: int, before: WorkflowInstance)
    returns (r: Response<WorkflowInstance>)
    requires svc.Valid() && "I" in svc.instances && svc.instances["I"] == before
    modifies svc`instances
    ensures svc.Valid() && r == Transition(svc.definitions, before, actionId, now)
    ensures "I" in svc.instances && svc.instances["I"] == if r.Ok? then r.value else before
  {
    r := svc.ExecuteAction("I", actionId, now);
  }

  /** The whole run, from empty registries to the instance in its final state. */
  method Walkthrough() {
    var svc := new WorkflowService();
    var again := CatalogStates(svc);
    var fromFinal := CatalogActions(svc);
    var early := DefinitionStart(svc);
    DefinitionStates(svc);
    DefinitionActions(svc);
    Start(svc);
    FlowTransitions(svc.definitions);
    var refused := Execute(svc, "B", 10, Started);
    assert refused == BadRequest(NotValidFromCurrentState);
    var submitted := Execute(svc, "A", 11, Started);
    assert submitted == Ok(InReview);
    var approved := Execute(svc, "B", 12, InReview);
    assert approved == Ok(Finished);
    var stuck := Execute(svc, "A", 13, Finished);
    assert !stuck.Ok? && svc.instances["I"] == Finished;
  }
}
