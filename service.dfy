/**
 * The transition service: it moves an entity along the path the graph finds,
 * edge by edge, asking the guard registered for each edge (if any) whether
 * the step may be taken, and writes the new state into the entity after each
 * approved step.
 */
module Service {
  import opened TransitionKeys
  import opened Errors
  import opened Adjacency
  import opened Paths
  import opened Graph

  /** The entity's properties other than its state field. */
  type Fields = map<string, string>

  /** What a guard is shown: the entity as it stands when the guard runs. */
  datatype Snapshot = Snapshot(state: State, fields: Fields)

  /** A guard approves the step, or fails it with an error of its own. */
  datatype Verdict = Approve | Reject(cause: string)

  type Guard = Snapshot -> Verdict

  /** Guards by the key of the transition they protect. */
  type Guards = map<Key, Guard>

  /** An entity with a state field that the service assigns in place. */
  class Entity {
    var state: State
    var fields: Fields

    constructor (state: State, fields: Fields)
      ensures this.state == state && this.fields == fields
    {
      this.state := state;
      this.fields := fields;
    }
  }

  // ---------------------------------------------------------------------------
  // The walk along a path

  /**
   * The outcome of walking a path: the state reached, how many steps were
   * applied, the error that stopped the walk (if any) and the keys of the
   * guards that were asked, in order.
   */
  datatype Walk = Walk(state: State, applied: nat, error: Option<Error>, invoked: seq<Key>)

  /**
   * Walks `path` from `state`: each step looks up the guard under the key of
   * the current state and the next one; a missing guard or an approval moves
   * to the next state, a rejection stops the walk where it is.
   */
  function WalkPath(guards: Guards, state: State, fields: Fields, path: seq<State>): Walk
    decreases |path|
  {
    if path == [] then Walk(state, 0, None, [])
    else
      var key := AsTransition(state, path[0]);
      var rest := WalkPath(guards, path[0], fields, path[1..]);
      if key in guards then
        match guards[key](Snapshot(state, fields))
        case Reject(cause) => Walk(state, 0, Some(GuardRejected(cause)), [key])
        case Approve => Walk(rest.state, rest.applied + 1, rest.error, [key] + rest.invoked)
      else
        Walk(rest.state, rest.applied + 1, rest.error, rest.invoked)
  }

  /**
   * A walk applies a prefix of the path and ends in the last state it applied;
   * it stops early exactly when a guard rejected the next step, and asks at
   * most one guard per applied step and the rejecting one.
   */
  lemma {:induction false} WalkShape(guards: Guards, state: State, fields: Fields, path: seq<State>)
    ensures var w := WalkPath(guards, state, fields, path);
            w.applied <= |path| &&
            w.state == (if w.applied == 0 then state else path[w.applied - 1]) &&
            (w.error == None <==> w.applied == |path|) &&
            (w.error.Some? ==> w.error.value.GuardRejected?) &&
            |w.invoked| <= w.applied + 1
    decreases |path|
  {
    if path != [] {
      WalkShape(guards, path[0], fields, path[1..]);
      var rest := WalkPath(guards, path[0], fields, path[1..]);
      if rest.applied > 0 {
        assert path[rest.applied] == path[1..][rest.applied - 1];
      }
    }
  }

  /**
   * A walk along a search result that no guard stopped ends in the search's
   * target: a successful transition leaves the entity in the state asked for.
   */
  lemma WalkReachesTarget(adj: Adj, guards: Guards, a: State, b: State, fields: Fields, path: seq<State>)
    requires BfsPath(adj, a, b, path)
    ensures var w := WalkPath(guards, a, fields, path);
            w.error.None? ==> w.applied == |path| && w.state == b
  {
    WalkShape(guards, a, fields, path);
    var q := [a] + path;
    if path != [] {
      assert q[|q| - 1] == path[|path| - 1];
    }
  }

  /** The first step of a walk, and the rest of the walk after it. */
  lemma WalkStep(guards: Guards, state: State, fields: Fields, path: seq<State>)
    requires path != []
    ensures var key := AsTransition(state, path[0]);
            var rest := WalkPath(guards, path[0], fields, path[1..]);
            WalkPath(guards, state, fields, path) ==
              if key !in guards then Walk(rest.state, rest.applied + 1, rest.error, rest.invoked)
              else if guards[key](Snapshot(state, fields)).Reject? then
                Walk(state, 0, Some(GuardRejected(guards[key](Snapshot(state, fields)).cause)), [key])
              else Walk(rest.state, rest.applied + 1, rest.error, [key] + rest.invoked)
  {
  }

  /** The states the walk passes through: the start, then the path. */
  function StateAt(state: State, path: seq<State>, j: nat): State
    requires j <= |path|
  {
    if j == 0 then state else path[j - 1]
  }

  /** The keys of the steps of `path` from `state`, in order. */
  function StepKeys(state: State, path: seq<State>): (ks: seq<Key>)
    ensures |ks| == |path|
    decreases |path|
  {
    if path == [] then [] else [AsTransition(state, path[0])] + StepKeys(path[0], path[1..])
  }

  /** The key of step `j` joins the state the walk is in before it and the step's target. */
  lemma {:induction false} StepKeysAt(state: State, path: seq<State>, j: nat)
    requires j < |path|
    ensures StepKeys(state, path)[j] == AsTransition(StateAt(state, path, j), path[j])
    decreases |path|
  {
    if j > 0 {
      StepKeysAt(path[0], path[1..], j - 1);
    }
  }

  /** The keys of `keys` under which a guard is registered, in order. */
  function Guarded(keys: seq<Key>, guards: Guards): (r: seq<Key>)
    ensures forall k :: k in r <==> k in keys && k in guards
    decreases |keys|
  {
    if keys == [] then []
    else (if keys[0] in guards then [keys[0]] else []) + Guarded(keys[1..], guards)
  }

  lemma GuardedCons(key: Key, tail: seq<Key>, guards: Guards)
    ensures Guarded([key] + tail, guards) == (if key in guards then [key] else []) + Guarded(tail, guards)
  {
    assert ([key] + tail)[0] == key && ([key] + tail)[1..] == tail;
  }

  /**
   * Every step the walk took was approved: it had no guard, or its guard,
   * shown the entity in the step's starting state, approved it.
   */
  lemma {:induction false} WalkApprovedSteps(guards: Guards, state: State, fields: Fields, path: seq<State>)
    ensures var w := WalkPath(guards, state, fields, path);
            w.applied <= |path| &&
            forall j :: 0 <= j < w.applied ==>
              var key := AsTransition(StateAt(state, path, j), path[j]);
              key in guards ==> guards[key](Snapshot(StateAt(state, path, j), fields)) == Approve
    decreases |path|
  {
    if path != [] {
      var w := WalkPath(guards, state, fields, path);
      var rest := WalkPath(guards, path[0], fields, path[1..]);
      WalkShape(guards, state, fields, path);
      WalkApprovedSteps(guards, path[0], fields, path[1..]);
      forall j | 1 <= j < w.applied
        ensures StateAt(state, path, j) == StateAt(path[0], path[1..], j - 1) && path[j] == path[1..][j - 1]
      {
      }
    }
  }

  /**
   * A walk that stopped early stopped at the guard of its next step: that
   * guard is registered and rejected the entity in the walk's final state,
   * and its cause is the walk's error.
   */
  lemma {:induction false} WalkRejectedStep(guards: Guards, state: State, fields: Fields, path: seq<State>)
    ensures var w := WalkPath(guards, state, fields, path);
            w.error.Some? ==>
              w.applied < |path| && w.error.value.GuardRejected? &&
              var key := AsTransition(w.state, path[w.applied]);
              key in guards && guards[key](Snapshot(w.state, fields)) == Reject(w.error.value.cause)
    decreases |path|
  {
    if path != [] {
      WalkRejectedStep(guards, path[0], fields, path[1..]);
      WalkShape(guards, state, fields, path);
      var w := WalkPath(guards, state, fields, path);
      var rest := WalkPath(guards, path[0], fields, path[1..]);
      if w.error.Some? && w.applied > 0 {
        assert w.state == rest.state && w.applied == rest.applied + 1;
        assert path[w.applied] == path[1..][rest.applied];
      }
    }
  }

  /**
   * The guards asked are those registered for the steps taken and, when the
   * walk stopped early, for the rejected step; each once, in path order.
   */
  lemma {:induction false} WalkInvokedGuards(guards: Guards, state: State, fields: Fields, path: seq<State>)
    ensures var w := WalkPath(guards, state, fields, path);
            var reached := if w.error.Some? then w.applied + 1 else w.applied;
            reached <= |path| &&
            w.invoked == Guarded(StepKeys(state, path)[..reached], guards)
    decreases |path|
  {
    if path != [] {
      var w := WalkPath(guards, state, fields, path);
      var rest := WalkPath(guards, path[0], fields, path[1..]);
      var key := AsTransition(state, path[0]);
      var ks := StepKeys(state, path);
      var reached := if w.error.Some? then w.applied + 1 else w.applied;
      assert ks == [key] + StepKeys(path[0], path[1..]);
      if key in guards && guards[key](Snapshot(state, fields)).Reject? {
        assert ks[..reached] == [key] + [];
        GuardedCons(key, [], guards);
      } else {
        WalkInvokedGuards(guards, path[0], fields, path[1..]);
        var restReached := if rest.error.Some? then rest.applied + 1 else rest.applied;
        var tail := StepKeys(path[0], path[1..])[..restReached];
        assert reached == restReached + 1;
        assert ks[..reached] == [key] + tail;
        GuardedCons(key, tail, guards);
      }
    }
  }

  /** A walk of one step either moves to its target or stays with its guard's error. */
  lemma SingleStep(guards: Guards, state: State, fields: Fields, target: State)
    ensures var w := WalkPath(guards, state, fields, [target]);
            var key := AsTransition(state, target);
            (w.error == None && w.state == target &&
             (key !in guards || guards[key](Snapshot(state, fields)) == Approve)) ||
            (key in guards && guards[key](Snapshot(state, fields)).Reject? && w.state == state &&
             w.error == Some(GuardRejected(guards[key](Snapshot(state, fields)).cause)))
  {
    assert [target][1..] == [];
  }

  // ---------------------------------------------------------------------------
  // Registration

  /** A guard declared for the transition from `from` to `to`. */
  datatype Binding = Binding(from: State, to: State, guard: Guard)

  /** Folds the declared guards into the lookup map, a later declaration replacing an earlier one. */
  function Register(bindings: seq<Binding>): (g: Guards)
    ensures forall j :: 0 <= j < |bindings| ==> AsTransition(bindings[j].from, bindings[j].to) in g
    decreases |bindings|
  {
    if bindings == [] then map[]
    else
      var last := bindings[|bindings| - 1];
      Register(bindings[..|bindings| - 1])[AsTransition(last.from, last.to) := last.guard]
  }

  /**
   * When no source state holds the separator, the step from `a` to `b` finds
   * a guard exactly when one was declared for `a` and `b`.
   */
  lemma {:induction false} RegisterFinds(bindings: seq<Binding>, a: State, b: State)
    requires !HasArrow(a)
    requires forall j :: 0 <= j < |bindings| ==> !HasArrow(bindings[j].from)
    ensures AsTransition(a, b) in Register(bindings) <==>
              exists j :: 0 <= j < |bindings| && bindings[j].from == a && bindings[j].to == b
    decreases |bindings|
  {
    if bindings != [] {
      var n := |bindings| - 1;
      var init, last := bindings[..n], bindings[n];
      RegisterFinds(init, a, b);
      if AsTransition(last.from, last.to) == AsTransition(a, b) {
        AsTransitionInjective(last.from, last.to, a, b);
      }
      if exists j :: 0 <= j < |bindings| && bindings[j].from == a && bindings[j].to == b {
        var j :| 0 <= j < |bindings| && bindings[j].from == a && bindings[j].to == b;
        if j < n {
          assert init[j] == bindings[j];
        }
      }
      if exists j :: 0 <= j < n && init[j].from == a && init[j].to == b {
        var j :| 0 <= j < n && init[j].from == a && init[j].to == b;
        assert bindings[j] == init[j];
      }
    }
  }

  /**
   * When no source state holds the separator, the guard found for the step
   * from `a` to `b` is the last one declared for them.
   */
  lemma {:induction false} RegisterFindsLast(bindings: seq<Binding>, a: State, b: State, j: nat)
    requires !HasArrow(a)
    requires forall l :: 0 <= l < |bindings| ==> !HasArrow(bindings[l].from)
    requires j < |bindings| && bindings[j].from == a && bindings[j].to == b
    requires forall l :: j < l < |bindings| ==> !(bindings[l].from == a && bindings[l].to == b)
    ensures Register(bindings)[AsTransition(a, b)] == bindings[j].guard
    decreases |bindings|
  {
    var n := |bindings| - 1;
    var init, last := bindings[..n], bindings[n];
    if j < n {
      assert init[j] == bindings[j];
      RegisterFindsLast(init, a, b, j);
      if AsTransition(last.from, last.to) == AsTransition(a, b) {
        AsTransitionInjective(last.from, last.to, a, b);
      }
    }
  }

  // ---------------------------------------------------------------------------
  // The service

  class StateMachineService {
    const graph: StateMachineGraph
    const guards: Guards

    constructor (graph: StateMachineGraph, guards: Guards)
      ensures this.graph == graph && this.guards == guards
    {
      this.graph := graph;
      this.guards := guards;
    }

    /**
     * Walks `states` from the entity's current state. Each step asks the
     * guard registered under the step's key, passing it the entity; unless it
     * rejects, the entity's state becomes the step's target. Emits the entity
     * once after the last step, nothing for an empty `states`, and the
     * guard's error on a rejection.
     */
    method TransitionAll(input: Entity, states: seq<State>) returns (r: Result<Option<Entity>>, ghost invoked: seq<Key>)
      modifies input
      ensures var w := WalkPath(guards, old(input.state), old(input.fields), states);
              input.state == w.state && input.fields == old(input.fields) && invoked == w.invoked &&
              r == if w.error.Some? then Err(w.error.value)
                   else if states == [] then Ok(None)
                   else Ok(Some(input))
    {
      ghost var start, fields := input.state, input.fields;
      invoked := [];
      assert states[0..] == states;
      assert WalkPath(guards, start, fields, states).invoked == [] + WalkPath(guards, start, fields, states).invoked;
      for i := 0 to |states|
        invariant input.fields == fields
        invariant var w := WalkPath(guards, input.state, fields, states[i..]);
                  WalkPath(guards, start, fields, states) == Walk(w.state, i + w.applied, w.error, invoked + w.invoked)
      {
        var target := states[i];
        var key := AsTransition(input.state, target);
        WalkStep(guards, input.state, fields, states[i..]);
        assert states[i..][0] == target && states[i..][1..] == states[i + 1..];
        if key in guards {
          var verdict := guards[key](Snapshot(input.state, input.fields));
          if verdict.Reject? {
            invoked := invoked + [key];
            return Err(GuardRejected(verdict.cause)), invoked;
          }
          ghost var rest := WalkPath(guards, target, fields, states[i + 1..]);
          assert invoked + ([key] + rest.invoked) == (invoked + [key]) + rest.invoked;
          invoked := invoked + [key];
        }
        input.state := target;
      }
      assert states[|states|..] == [];
      assert invoked + [] == invoked;
      if states == [] {
        return Ok(None), invoked;
      }
      return Ok(Some(input)), invoked;
    }

    /**
     * Moves the entity to `b` along the path the graph finds. A start equal
     * to `b`, or no path in lenient mode, returns the entity untouched; no
     * path in strict mode fails before any guard runs.
     */
    method Transition(input: Entity, b: State) returns (r: Result<Entity>, ghost path: seq<State>, ghost invoked: seq<Key>)
      modifies input
      ensures input.fields == old(input.fields)
      ensures r.Ok? && (old(input.state) == b || Reachable(graph.adj, old(input.state), b)) ==> input.state == b
      ensures old(input.state) == b || !Reachable(graph.adj, old(input.state), b) ==>
                path == [] && invoked == [] && input.state == old(input.state) &&
                r == if old(input.state) != b && graph.strict then Err(NoTransitionFound(old(input.state), b))
                     else Ok(input)
      ensures old(input.state) != b && Reachable(graph.adj, old(input.state), b) ==>
                BfsPath(graph.adj, old(input.state), b, path) &&
                var w := WalkPath(guards, old(input.state), old(input.fields), path);
                input.state == w.state && invoked == w.invoked &&
                r == if w.error.Some? then Err(w.error.value) else Ok(input)
    {
      ghost var start, fields := input.state, input.fields;
      var found := graph.Transitions(input.state, b);
      if found.Err? {
        return Err(found.error), [], [];
      }
      var steps := found.value;
      path := steps;
      if |steps| > 0 {
        WalkReachesTarget(graph.adj, guards, start, b, fields, steps);
        var out;
        out, invoked := TransitionAll(input, steps);
        match out
        case Err(e) => r := Err(e);
        case Ok(emitted) => r := Ok(emitted.value);
      } else {
        r, invoked := Ok(input), [];
      }
    }

    /**
     * Moves the entity one step, to its first automatic successor; fails with
     * the final-state error when every successor is manual or there is none.
     */
    method Next(input: Entity) returns (r: Result<Entity>, ghost invoked: seq<Key>)
      modifies input
      ensures input.fields == old(input.fields)
      ensures var auto := graph.GetNextStates(old(input.state), false);
              auto == [] ==>
                r == Err(EntityInFinalState(old(input.state))) && input.state == old(input.state) && invoked == []
      ensures var auto := graph.GetNextStates(old(input.state), false);
              auto != [] ==>
                var w := WalkPath(guards, old(input.state), old(input.fields), [auto[0]]);
                input.state == w.state && invoked == w.invoked &&
                r == if w.error.Some? then Err(w.error.value) else Ok(input)
    {
      var auto := graph.GetNextStates(input.state, false);
      if auto == [] {
        return Err(EntityInFinalState(input.state)), [];
      }
      var out;
      out, invoked := TransitionAll(input, [auto[0]]);
      match out
      case Err(e) => r := Err(e);
      case Ok(emitted) => r := Ok(emitted.value);
    }
  }
}
