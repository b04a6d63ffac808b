/** The read-only queries the handlers run over a definition's lists: the
    existence tests and the first-match searches of Program.cs:93-194. */
module Lookup {
  import opened Models

  /** True when some element of `s` satisfies `p`. */
  predicate Any<T>(s: seq<T>, p: T -> bool) {
    exists i :: 0 <= i < |s| && p(s[i])
  }

  /** The position of the first element of `s` that satisfies `p`, if any. */
  function FirstIndex<T>(s: seq<T>, p: T -> bool): (r: Option<nat>)
    ensures r.None? <==> !Any(s, p)
    ensures r.Some? ==> r.value < |s| && p(s[r.value])
    ensures r.Some? ==> forall j :: 0 <= j < r.value ==> !p(s[j])
  {
    if |s| == 0 then None
    else if p(s[0]) then Some(0)
    else
      match FirstIndex(s[1..], p)
      case None =>
        assert forall j :: 1 <= j < |s| ==> s[j] == s[1..][j - 1];
        None
      case Some(k) =>
        assert forall j :: 1 <= j < |s| ==> s[j] == s[1..][j - 1];
        Some(k + 1)
  }

  /** The first element of `s` that satisfies `p`, or None. */
  function FirstOrNone<T>(s: seq<T>, p: T -> bool): (r: Option<T>)
    ensures r.None? <==> !Any(s, p)
    ensures r.Some? ==> r.value in s && p(r.value)
  {
    match FirstIndex(s, p)
    case None => None
    case Some(k) => Some(s[k])
  }

  /** The generic search returns the earliest element satisfying the
      predicate, whatever follows it. */
  lemma FirstOrNoneIsFirst<T>(s: seq<T>, p: T -> bool, k: nat)
    requires k < |s| && p(s[k]) && forall j :: 0 <= j < k ==> !p(s[j])
    ensures FirstOrNone(s, p) == Some(s[k])
  {
    var m := FirstIndex(s, p).value;
    assert m <= k;
  }

  /** Some state of the list carries `id` (Program.cs:93, 117, 122). */
  predicate HasState(states: seq<State>, id: string) {
    exists i :: 0 <= i < |states| && states[i].id == id
  }

  /** Some state of the list is initial (Program.cs:97). */
  predicate HasInitial(states: seq<State>) {
    exists i :: 0 <= i < |states| && states[i].isInitial
  }

  /** Some action of the list carries `id` (Program.cs:113). */
  predicate HasAction(actions: seq<WorkflowAction>, id: string) {
    exists i :: 0 <= i < |actions| && actions[i].id == id
  }

  /** The first state of the list carrying `id`, or None (Program.cs:189). */
  function FindState(states: seq<State>, id: string): (r: Option<State>)
    ensures r.None? <==> !HasState(states, id)
    ensures r.Some? ==> r.value in states && r.value.id == id
  {
    FirstOrNone(states, (s: State) => s.id == id)
  }

  /** The first action of the list carrying `id`, or None (Program.cs:182). */
  function FindAction(actions: seq<WorkflowAction>, id: string): (r: Option<WorkflowAction>)
    ensures r.None? <==> !HasAction(actions, id)
    ensures r.Some? ==> r.value in actions && r.value.id == id
  {
    FirstOrNone(actions, (a: WorkflowAction) => a.id == id)
  }

  /** The first state of the list that is both initial and enabled, or None
      (Program.cs:158). */
  function FirstInitialEnabled(states: seq<State>): (r: Option<State>)
    ensures r.None? <==> forall i :: 0 <= i < |states| ==> !(states[i].isInitial && states[i].enabled)
    ensures r.Some? ==> r.value in states && r.value.isInitial && r.value.enabled
  {
    FirstOrNone(states, (s: State) => s.isInitial && s.enabled)
  }

  /** No two states of the list share an id. */
  predicate UniqueStateIds(states: seq<State>) {
    forall i, j :: 0 <= i < j < |states| ==> states[i].id != states[j].id
  }

  /** No two actions of the list share an id. */
  predicate UniqueActionIds(actions: seq<WorkflowAction>) {
    forall i, j :: 0 <= i < j < |actions| ==> actions[i].id != actions[j].id
  }

  /** The lookup by id yields the earliest state carrying that id, whatever
      follows it. */
  lemma FindStateIsFirst(states: seq<State>, k: nat)
    requires k < |states| && forall j :: 0 <= j < k ==> states[j].id != states[k].id
    ensures FindState(states, states[k].id) == Some(states[k])
  {
    var id := states[k].id;
    var m :| 0 <= m < |states| && states[m] == FindState(states, id).value
      && forall j :: 0 <= j < m ==> states[j].id != id;
    assert m <= k;
  }

  /** With unique ids, the lookup by id finds exactly the state that carries it. */
  lemma FindStateUnique(states: seq<State>, s: State)
    requires UniqueStateIds(states) && s in states
    ensures FindState(states, s.id) == Some(s)
  {
    var i :| 0 <= i < |states| && states[i] == s;
    FindStateIsFirst(states, i);
  }

  /** The lookup by id yields the earliest action carrying that id, whatever
      follows it. */
  lemma FindActionIsFirst(actions: seq<WorkflowAction>, k: nat)
    requires k < |actions| && forall j :: 0 <= j < k ==> actions[j].id != actions[k].id
    ensures FindAction(actions, actions[k].id) == Some(actions[k])
  {
    var id := actions[k].id;
    var m :| 0 <= m < |actions| && actions[m] == FindAction(actions, id).value
      && forall j :: 0 <= j < m ==> actions[j].id != id;
    assert m <= k;
  }

  /** With unique ids, the lookup by id finds exactly the action that carries it. */
  lemma FindActionUnique(actions: seq<WorkflowAction>, a: WorkflowAction)
    requires UniqueActionIds(actions) && a in actions
    ensures FindAction(actions, a.id) == Some(a)
  {
    var i :| 0 <= i < |actions| && actions[i] == a;
    FindActionIsFirst(actions, i);
  }

  /** The search for an enabled initial state yields the earliest one in list
      order. */
  lemma FirstInitialEnabledIsFirst(states: seq<State>, k: nat)
    requires k < |states| && states[k].isInitial && states[k].enabled
    requires forall j :: 0 <= j < k ==> !(states[j].isInitial && states[j].enabled)
    ensures FirstInitialEnabled(states) == Some(states[k])
  {
    var m :| 0 <= m < |states| && states[m] == FirstInitialEnabled(states).value
      && forall j :: 0 <= j < m ==> !(states[j].isInitial && states[j].enabled);
    assert m <= k;
  }

  /** Appending to a list keeps every id it already had. */
  lemma HasStateAppend(states: seq<State>, s: State, id: string)
    ensures HasState(states + [s], id) <==> HasState(states, id) || s.id == id
  {
    var t := states + [s];
    if HasState(states, id) {
      var i :| 0 <= i < |states| && states[i].id == id;
      assert t[i] == states[i];
    }
    if s.id == id {
      assert t[|states|] == s;
    }
    if HasState(t, id) {
      var i :| 0 <= i < |t| && t[i].id == id;
      if i < |states| {
        assert states[i] == t[i];
      }
    }
  }
}
