/** Workflow definitions built from catalog entries (Program.cs:84-146). */
module Registry {
  import opened Models
  import opened Lookup

  /** No two states of the list are initial. */
  predicate AtMostOneInitial(states: seq<State>) {
    forall i, j :: 0 <= i < j < |states| && states[i].isInitial ==> !states[j].isInitial
  }

  /** The action's target and every one of its sources is a state of the list. */
  predicate ClosedOver(states: seq<State>, a: WorkflowAction) {
    HasState(states, a.toState) && forall f :: f in a.fromStates ==> HasState(states, f)
  }

  /** The definition invariant: unique state and action ids, at most one initial
      state, every action refers only to states of the definition, and every
      entry is the catalog's entry of the same id. */
  predicate DefinitionValid(
    catalogStates: map<string, State>, catalogActions: map<string, WorkflowAction>, d: WorkflowDefinition)
  {
    UniqueStateIds(d.states) && AtMostOneInitial(d.states) && UniqueActionIds(d.actions)
    && (forall a :: a in d.actions ==> ClosedOver(d.states, a))
    && (forall s :: s in d.states ==> s.id in catalogStates && catalogStates[s.id] == s)
    && (forall a :: a in d.actions ==> a.id in catalogActions && catalogActions[a.id] == a)
  }

  /** The first entry of `fromStates`, in list order, that is not a state of the list;
      None when all of them are. */
  function FirstMissingSource(states: seq<State>, fromStates: seq<string>): (r: Option<string>)
    ensures r.None? <==> forall f :: f in fromStates ==> HasState(states, f)
    ensures r.Some? ==>
      exists k :: 0 <= k < |fromStates| && fromStates[k] == r.value && !HasState(states, r.value)
        && forall j :: 0 <= j < k ==> HasState(states, fromStates[j])
  {
    match FirstIndex(fromStates, (f: string) => !HasState(states, f))
    case None => None
    case Some(k) => Some(fromStates[k])
  }

  /** With at most one initial state, any enabled initial state is the one chosen
      by the first-match search, so the choice does not depend on list order. */
  lemma InitialChoiceIsUnique(states: seq<State>, k: nat)
    requires AtMostOneInitial(states)
    requires k < |states| && states[k].isInitial && states[k].enabled
    ensures FirstInitialEnabled(states) == Some(states[k])
  {
    FirstInitialEnabledIsFirst(states, k);
  }

  /** Appending a catalog state that passes the duplicate and single-initial
      checks keeps the definition invariant. */
  lemma AppendStateKeepsValid(
    cs: map<string, State>, ca: map<string, WorkflowAction>, d: WorkflowDefinition, s: State)
    requires DefinitionValid(cs, ca, d)
    requires s.id in cs && cs[s.id] == s
    requires !HasState(d.states, s.id)
    requires !(s.isInitial && HasInitial(d.states))
    ensures DefinitionValid(cs, ca, d.(states := d.states + [s]))
  {
    var t := d.states + [s];
    forall i, j | 0 <= i < j < |t|
      ensures t[i].id != t[j].id && (t[i].isInitial ==> !t[j].isInitial)
    {
      if j == |d.states| {
        assert t[i] == d.states[i];
      }
    }
    forall a | a in d.actions
      ensures ClosedOver(t, a)
    {
      HasStateAppend(d.states, s, a.toState);
      forall f | f in a.fromStates
        ensures HasState(t, f)
      {
        HasStateAppend(d.states, s, f);
      }
    }
  }

  /** Appending a catalog action that passes the duplicate and closure checks
      keeps the definition invariant. */
  lemma AppendActionKeepsValid(
    cs: map<string, State>, ca: map<string, WorkflowAction>, d: WorkflowDefinition, a: WorkflowAction)
    requires DefinitionValid(cs, ca, d)
    requires a.id in ca && ca[a.id] == a
    requires !HasAction(d.actions, a.id)
    requires ClosedOver(d.states, a)
    ensures DefinitionValid(cs, ca, d.(actions := d.actions + [a]))
  {
    var t := d.actions + [a];
    forall i, j | 0 <= i < j < |t|
      ensures t[i].id != t[j].id
    {
      if j == |d.actions| {
        assert t[i] == d.actions[i];
      }
    }
  }

  /** Every registered definition is valid and stored under its own id. */
  predicate DefinitionsValid(
    cs: map<string, State>, ca: map<string, WorkflowAction>, definitions: map<string, WorkflowDefinition>)
  {
    forall id :: id in definitions ==> definitions[id].id == id && DefinitionValid(cs, ca, definitions[id])
  }

  /** The definitions stay valid when the catalog grows by new entries. */
  lemma CatalogGrowthKeepsValid(
    cs: map<string, State>, ca: map<string, WorkflowAction>,
    cs': map<string, State>, ca': map<string, WorkflowAction>, definitions: map<string, WorkflowDefinition>)
    requires DefinitionsValid(cs, ca, definitions)
    requires forall id :: id in cs ==> id in cs' && cs'[id] == cs[id]
    requires forall id :: id in ca ==> id in ca' && ca'[id] == ca[id]
    ensures DefinitionsValid(cs', ca', definitions)
  {
    forall id | id in definitions
      ensures DefinitionValid(cs', ca', definitions[id])
    {
      var d := definitions[id];
      assert DefinitionValid(cs, ca, d);
    }
  }
}
