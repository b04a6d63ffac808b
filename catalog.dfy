/** The global catalog of reusable states and actions (Program.cs:28-81). */
module Catalog {
  import opened Models
  import opened Lookup

  /** Every id in `fromStates` names a catalog state that is not final. */
  predicate SourcesUsable(catalog: map<string, State>, fromStates: seq<string>) {
    forall f :: f in fromStates ==> f in catalog && !catalog[f].isFinal
  }

  /** The catalog invariant: every entry is stored under its own id, and every
      action starts from existing non-final states and ends in an existing state. */
  predicate CatalogValid(states: map<string, State>, actions: map<string, WorkflowAction>) {
    (forall id :: id in states ==> states[id].id == id)
    && (forall id :: id in actions ==>
          actions[id].id == id && SourcesUsable(states, actions[id].fromStates) && actions[id].toState in states)
  }

  /** What CreateAction reports for the first entry of `fromStates`, in list order,
      that is missing from the catalog or final; None when every entry is usable. */
  function FirstBadSource(catalog: map<string, State>, fromStates: seq<string>): (r: Option<Reason>)
    ensures r.None? <==> SourcesUsable(catalog, fromStates)
    ensures r.Some? ==>
      exists k :: 0 <= k < |fromStates|
        && (forall j :: 0 <= j < k ==> fromStates[j] in catalog && !catalog[fromStates[j]].isFinal)
        && (if fromStates[k] !in catalog then r.value == SourceStateNotFound(fromStates[k])
            else catalog[fromStates[k]].isFinal && r.value == SourceStateFinal(fromStates[k]))
  {
    match FirstIndex(fromStates, (f: string) => f !in catalog || catalog[f].isFinal)
    case None => None
    case Some(k) =>
      Some(if fromStates[k] !in catalog then SourceStateNotFound(fromStates[k]) else SourceStateFinal(fromStates[k]))
  }

  /** Registering a new state under a fresh id keeps the catalog invariant. */
  lemma AddStateKeepsCatalogValid(states: map<string, State>, actions: map<string, WorkflowAction>, s: State)
    requires CatalogValid(states, actions) && s.id !in states
    ensures CatalogValid(states[s.id := s], actions)
  {
    forall id | id in actions
      ensures SourcesUsable(states[s.id := s], actions[id].fromStates)
    {
      assert SourcesUsable(states, actions[id].fromStates);
    }
  }
}
