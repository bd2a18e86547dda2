/**
 * The failures the engine reports, and the result type that carries them.
 */
module Errors {
  import opened TransitionKeys

  /** The failures a transition can end with. */
  datatype Error =
    | NoTransitionFound(from: State, to: State)   // strict path search found no route
    | EntityInFinalState(state: State)            // `next` found no automatic successor
    | GuardRejected(cause: string)                // a guard's own failure, passed on unchanged

  datatype Result<T> = Ok(value: T) | Err(error: Error)

  datatype Option<T> = None | Some(value: T)

  const NoTransitionPrefix: string := "No transition path found from '"
  const FinalStatePrefix: string := "Entity is in a final state: "

  /** The text of each failure's `message`. */
  function Message(e: Error): (m: string)
    ensures e.NoTransitionFound? ==> |m| == |NoTransitionPrefix| + |e.from| + 6 + |e.to| + 1
    ensures e.EntityInFinalState? ==> |m| == |FinalStatePrefix| + |e.state|
    ensures e.NoTransitionFound? ==>
              m[..|NoTransitionPrefix|] == NoTransitionPrefix &&
              m[|NoTransitionPrefix|..|NoTransitionPrefix| + |e.from|] == e.from &&
              m[|NoTransitionPrefix| + |e.from|..] == "' to '" + e.to + "'"
    ensures e.EntityInFinalState? ==>
              m[..|FinalStatePrefix|] == FinalStatePrefix && m[|FinalStatePrefix|..] == e.state
    ensures e.GuardRejected? ==> m == e.cause
  {
    match e
    case NoTransitionFound(from, to) => NoTransitionPrefix + from + "' to '" + to + "'"
    case EntityInFinalState(state) => FinalStatePrefix + state
    case GuardRejected(cause) => cause
  }

  /** The final-state message names the state: distinct states give distinct messages. */
  lemma FinalStateMessageNamesState(s: State, t: State)
    requires Message(EntityInFinalState(s)) == Message(EntityInFinalState(t))
    ensures s == t
  {
    assert s == Message(EntityInFinalState(s))[|FinalStatePrefix|..];
  }

  /** The path-search message the module's tests expect, word for word. */
  lemma NoTransitionMessageOfTests()
    ensures Message(NoTransitionFound("fulfilled", "pending"))
            == "No transition path found from 'fulfilled' to 'pending'"
  {
    assert Message(NoTransitionFound("fulfilled", "pending"))
           == NoTransitionPrefix + "fulfilled" + "' to '" + "pending" + "'";
  }

  /** The final-state message the module's tests expect, word for word. */
  lemma FinalStateMessageOfTests()
    ensures Message(EntityInFinalState("fulfilled")) == "Entity is in a final state: fulfilled"
  {
  }
}
