/**
 * Paths in an adjacency map, and what a breadth-first search over it must
 * deliver: a path of consecutive edges, with no repeated state, shortest, and,
 * among the shortest, the first one in declaration order.
 *
 * "First in declaration order" is made precise by `Choices`: a path is read as
 * the sequence of positions, in each state's successor list, of the edge it
 * takes (the first position, when a target is listed twice). Among paths of
 * one length from one start, the breadth-first search returns the one whose
 * choices are lexicographically least.
 *
 * The second half of the module holds the invariants of the search's queue
 * and the lemmas that carry them from one step of the search to the next.
 */
module Paths {
  import opened TransitionKeys
  import opened Adjacency

  predicate IsEdge(adj: Adj, x: State, y: State) {
    x in adj && y in adj[x]
  }

  /** A non-empty sequence of states, each an adjacency successor of the one before. */
  ghost predicate IsPath(adj: Adj, q: seq<State>) {
    |q| >= 1 && forall i :: 0 <= i < |q| - 1 ==> IsEdge(adj, q[i], q[i + 1])
  }

  ghost predicate PathFromTo(adj: Adj, q: seq<State>, a: State, b: State) {
    IsPath(adj, q) && q[0] == a && q[|q| - 1] == b
  }

  ghost predicate Reachable(adj: Adj, a: State, b: State) {
    exists q :: PathFromTo(adj, q, a, b)
  }

  ghost predicate Distinct(q: seq<State>) {
    forall i, j :: 0 <= i < j < |q| ==> q[i] != q[j]
  }

  /** The first position of `y` in `xs`. */
  function IndexOf(xs: seq<State>, y: State): (k: nat)
    requires y in xs
    ensures k < |xs| && xs[k] == y && y !in xs[..k]
    decreases |xs|
  {
    if xs[0] == y then 0
    else
      var k' := IndexOf(xs[1..], y);
      assert xs[..k' + 1] == [xs[0]] + xs[1..][..k'];
      k' + 1
  }

  /** The position, in each successor list, of the edge the path takes. */
  ghost function Choices(adj: Adj, q: seq<State>): (c: seq<nat>)
    requires IsPath(adj, q)
    ensures |c| == |q| - 1
    decreases |q|
  {
    if |q| == 1 then []
    else
      PathPrefix(adj, q, |q| - 1);
      assert IsEdge(adj, q[|q| - 2], q[|q| - 1]);
      Choices(adj, q[..|q| - 1]) + [IndexOf(adj[q[|q| - 2]], q[|q| - 1])]
  }

  /** Strict lexicographic order on sequences of positions. */
  ghost predicate LexLess(x: seq<nat>, y: seq<nat>) {
    exists k :: 0 <= k < |x| && k < |y| && x[..k] == y[..k] && x[k] < y[k]
  }

  ghost predicate LexLeq(x: seq<nat>, y: seq<nat>) {
    x == y || LexLess(x, y)
  }

  /** No path from `a` to `b` has fewer states than `q`. */
  ghost predicate Shortest(adj: Adj, a: State, b: State, q: seq<State>) {
    forall q' :: PathFromTo(adj, q', a, b) ==> |q| <= |q'|
  }

  /** Among the paths from `a` to `b` as long as `q`, `q` makes the least choices. */
  ghost predicate FirstOfShortest(adj: Adj, a: State, b: State, q: seq<State>) {
    IsPath(adj, q) &&
    forall q' :: PathFromTo(adj, q', a, b) && |q'| == |q| ==> LexLeq(Choices(adj, q), Choices(adj, q'))
  }

  /**
   * What a successful search from `a` to `b` returns: the states after `a` of a
   * path without repetitions that is shortest and first in declaration order.
   */
  ghost predicate BfsPath(adj: Adj, a: State, b: State, p: seq<State>) {
    PathFromTo(adj, [a] + p, a, b) && Distinct([a] + p) &&
    Shortest(adj, a, b, [a] + p) && FirstOfShortest(adj, a, b, [a] + p)
  }

  // ---------------------------------------------------------------------------
  // Facts about paths and their choices

  lemma PathPrefix(adj: Adj, q: seq<State>, n: nat)
    requires IsPath(adj, q) && 1 <= n <= |q|
    ensures IsPath(adj, q[..n]) && q[..n][0] == q[0] && q[..n][n - 1] == q[n - 1]
  {
    forall i | 0 <= i < n - 1 ensures IsEdge(adj, q[..n][i], q[..n][i + 1]) {
      assert IsEdge(adj, q[i], q[i + 1]);
    }
  }

  /** Extending a path by one edge extends its choices by the edge's first position. */
  lemma PathExtend(adj: Adj, p: seq<State>, a: State, u: State, w: State)
    requires PathFromTo(adj, p, a, u) && IsEdge(adj, u, w)
    ensures PathFromTo(adj, p + [w], a, w)
    ensures Choices(adj, p + [w]) == Choices(adj, p) + [IndexOf(adj[u], w)]
  {
    var q := p + [w];
    forall i | 0 <= i < |q| - 1 ensures IsEdge(adj, q[i], q[i + 1]) {
      if i < |p| - 1 {
        assert IsEdge(adj, p[i], p[i + 1]);
      }
    }
    assert q[..|q| - 1] == p;
  }

  /** The choices of a path of two or more states are its parent's choices and one more. */
  lemma ChoicesSplit(adj: Adj, q: seq<State>)
    requires IsPath(adj, q) && |q| >= 2
    ensures IsPath(adj, q[..|q| - 1]) && IsEdge(adj, q[|q| - 2], q[|q| - 1])
    ensures Choices(adj, q) == Choices(adj, q[..|q| - 1]) + [IndexOf(adj[q[|q| - 2]], q[|q| - 1])]
  {
    PathPrefix(adj, q, |q| - 1);
    assert IsEdge(adj, q[|q| - 2], q[|q| - 1]);
  }

  /** Paths from one start with the same choices are the same path. */
  lemma {:induction false} ChoicesDetermine(adj: Adj, q1: seq<State>, q2: seq<State>)
    requires IsPath(adj, q1) && IsPath(adj, q2) && q1[0] == q2[0] && |q1| == |q2|
    requires Choices(adj, q1) == Choices(adj, q2)
    ensures q1 == q2
    decreases |q1|
  {
    if |q1| > 1 {
      var n := |q1|;
      ChoicesSplitEqual(adj, q1, q2);
      ChoicesDetermine(adj, q1[..n - 1], q2[..n - 1]);
      assert q2[n - 2] == q2[..n - 1][n - 2] == q1[..n - 1][n - 2] == q1[n - 2];
      assert q1[n - 1] == q2[n - 1] by {
        var x := q1[n - 2];
        assert adj[x][IndexOf(adj[x], q1[n - 1])] == q1[n - 1];
        assert adj[x][IndexOf(adj[x], q2[n - 1])] == q2[n - 1];
      }
      assert q1 == q1[..n - 1] + [q1[n - 1]] && q2 == q2[..n - 1] + [q2[n - 1]];
    }
  }

  /** Equal choices of two paths of equal length are equal choices of their parents and an equal last position. */
  lemma ChoicesSplitEqual(adj: Adj, q1: seq<State>, q2: seq<State>)
    requires IsPath(adj, q1) && IsPath(adj, q2) && |q1| == |q2| >= 2
    requires Choices(adj, q1) == Choices(adj, q2)
    ensures IsPath(adj, q1[..|q1| - 1]) && IsPath(adj, q2[..|q2| - 1])
    ensures Choices(adj, q1[..|q1| - 1]) == Choices(adj, q2[..|q2| - 1])
    ensures IsEdge(adj, q1[|q1| - 2], q1[|q1| - 1]) && IsEdge(adj, q2[|q2| - 2], q2[|q2| - 1])
    ensures IndexOf(adj[q1[|q1| - 2]], q1[|q1| - 1]) == IndexOf(adj[q2[|q2| - 2]], q2[|q2| - 1])
  {
    var n := |q1|;
    ChoicesSplit(adj, q1);
    ChoicesSplit(adj, q2);
    assert Choices(adj, q1[..n - 1]) == Choices(adj, q1)[..n - 2];
    assert Choices(adj, q2[..n - 1]) == Choices(adj, q2)[..n - 2];
    assert Choices(adj, q1)[n - 2] == Choices(adj, q2)[n - 2];
  }

  /** A path that starts inside `visited` and ends outside it leaves it along some edge. */
  lemma LeaveVisited(adj: Adj, q: seq<State>, visited: set<State>) returns (j: nat)
    requires IsPath(adj, q) && q[0] in visited && q[|q| - 1] !in visited
    ensures j < |q| - 1 && q[j] in visited && q[j + 1] !in visited
    ensures IsEdge(adj, q[j], q[j + 1])
  {
    j := 0;
    while q[j + 1] in visited
      invariant j < |q| - 1 && q[j] in visited
      decreases |q| - j
    {
      j := j + 1;
    }
    assert IsEdge(adj, q[j], q[j + 1]);
  }

  // ---------------------------------------------------------------------------
  // Lexicographic order

  lemma LexExtend(x: seq<nat>, y: seq<nat>, i: nat, j: nat)
    requires |x| == |y| && LexLess(x, y)
    ensures LexLess(x + [i], y + [j])
  {
    var k :| 0 <= k < |x| && k < |y| && x[..k] == y[..k] && x[k] < y[k];
    assert (x + [i])[..k] == x[..k] && (y + [j])[..k] == y[..k];
    assert (x + [i])[k] == x[k] && (y + [j])[k] == y[k];
  }

  lemma LexExtendSame(x: seq<nat>, i: nat, j: nat)
    requires i < j
    ensures LexLess(x + [i], x + [j])
  {
    var k := |x|;
    assert (x + [i])[..k] == x == (x + [j])[..k];
    assert (x + [i])[k] == i && (x + [j])[k] == j;
  }

  lemma LexTrans(x: seq<nat>, y: seq<nat>, z: seq<nat>)
    requires |x| == |y| == |z| && LexLess(x, y) && LexLess(y, z)
    ensures LexLess(x, z)
  {
    var k1 :| 0 <= k1 < |x| && k1 < |y| && x[..k1] == y[..k1] && x[k1] < y[k1];
    var k2 :| 0 <= k2 < |y| && k2 < |z| && y[..k2] == z[..k2] && y[k2] < z[k2];
    if k1 <= k2 {
      assert x[..k1] == z[..k1] by {
        assert y[..k1] == y[..k2][..k1] == z[..k2][..k1] == z[..k1];
      }
      if k1 < k2 {
        assert y[k1] == y[..k2][k1] == z[..k2][k1] == z[k1];
      }
      assert x[k1] < z[k1];
    } else {
      assert x[..k2] == z[..k2] by {
        assert x[..k2] == x[..k1][..k2] == y[..k1][..k2] == y[..k2];
      }
      assert x[k2] == x[..k1][k2] == y[..k1][k2] == y[k2];
      assert x[k2] < z[k2];
    }
  }

  lemma LexLessLeq(x: seq<nat>, y: seq<nat>, z: seq<nat>)
    requires |x| == |y| == |z| && LexLess(x, y) && LexLeq(y, z)
    ensures LexLess(x, z)
  {
    if y != z {
      LexTrans(x, y, z);
    }
  }

  lemma LexAsymmetric(x: seq<nat>, y: seq<nat>)
    requires |x| == |y| && LexLess(x, y)
    ensures !LexLess(y, x) && x != y
  {
    var k1 :| 0 <= k1 < |x| && k1 < |y| && x[..k1] == y[..k1] && x[k1] < y[k1];
    forall n | k1 < n <= |x| ensures y[..n] != x[..n] {
      assert x[..n][k1] == x[k1] && y[..n][k1] == y[k1];
    }
    forall k2 | 0 <= k2 < |y| && k2 < |x| && y[..k2] == x[..k2] ensures x[k2] <= y[k2] {
      if k2 < k1 {
        assert x[..k1][k2] == x[k2] && y[..k1][k2] == y[k2];
      }
    }
  }

  /** A search result witnesses reachability. */
  lemma BfsPathReachable(adj: Adj, a: State, b: State, p: seq<State>)
    requires BfsPath(adj, a, b, p)
    ensures Reachable(adj, a, b)
  {
    assert PathFromTo(adj, [a] + p, a, b);
  }

  /** No path leaves a set that every edge from inside it stays in. */
  lemma ClosedSetUnreachable(adj: Adj, inside: set<State>, a: State, b: State)
    requires a in inside && b !in inside
    requires forall x, y :: x in inside && y in Successors(adj, x) ==> y in inside
    ensures !Reachable(adj, a, b)
  {
    if Reachable(adj, a, b) {
      var q :| PathFromTo(adj, q, a, b);
      var j := LeaveVisited(adj, q, inside);
    }
  }

  /** The specification of a search result admits one answer at most. */
  lemma BfsPathUnique(adj: Adj, a: State, b: State, p1: seq<State>, p2: seq<State>)
    requires BfsPath(adj, a, b, p1) && BfsPath(adj, a, b, p2)
    ensures p1 == p2
  {
    var q1, q2 := [a] + p1, [a] + p2;
    assert |q1| == |q2|;
    var c1, c2 := Choices(adj, q1), Choices(adj, q2);
    assert LexLeq(c1, c2) && LexLeq(c2, c1);
    if c1 != c2 {
      LexAsymmetric(c1, c2);
    }
    ChoicesDetermine(adj, q1, q2);
    assert p1 == q1[1..] == q2[1..] == p2;
  }

  // ---------------------------------------------------------------------------
  // The queue of the search and its invariants

  /** A queued state with the path (from the start, inclusive) that reached it. */
  type Entry = (State, seq<State>)

  ghost predicate InQueue(queue: seq<Entry>, x: State) {
    exists k :: 0 <= k < |queue| && queue[k].0 == x
  }

  /** Every successor of `x` has been visited. */
  ghost predicate Closed(adj: Adj, visited: set<State>, x: State) {
    forall y :: y in Successors(adj, x) ==> y in visited
  }

  /** A queued path: from `a` to its state, repetition-free, visited, shortest and first. */
  ghost predicate EntryOk(adj: Adj, a: State, visited: set<State>, e: Entry) {
    PathFromTo(adj, e.1, a, e.0) && Distinct(e.1) && (forall x :: x in e.1 ==> x in visited) &&
    Shortest(adj, a, e.0, e.1) && FirstOfShortest(adj, a, e.0, e.1)
  }

  ghost predicate QueueOk(adj: Adj, a: State, visited: set<State>, queue: seq<Entry>) {
    forall k :: 0 <= k < |queue| ==> EntryOk(adj, a, visited, queue[k])
  }

  /** Queued paths have `len` or `len + 1` states, shorter ones first. */
  ghost predicate Levels(queue: seq<Entry>, len: nat) {
    (forall k :: 0 <= k < |queue| ==> len <= |queue[k].1| <= len + 1) &&
    (forall k, l :: 0 <= k < l < |queue| ==> |queue[k].1| <= |queue[l].1|)
  }

  /** Among queued paths of one length, those with lesser choices come first. */
  ghost predicate Ordered(adj: Adj, queue: seq<Entry>) {
    forall k, l ::
      0 <= k < l < |queue| && |queue[k].1| == |queue[l].1| &&
      IsPath(adj, queue[k].1) && IsPath(adj, queue[l].1) ==>
        LexLess(Choices(adj, queue[k].1), Choices(adj, queue[l].1))
  }

  /**
   * Every queued path of `len + 1` states was pushed by a parent whose choices
   * are below `key`, or equal to `key` with a last choice below `bound`.
   */
  ghost predicate ParentsBelow(adj: Adj, queue: seq<Entry>, len: nat, key: seq<nat>, bound: nat) {
    forall k :: 0 <= k < |queue| && |queue[k].1| == len + 1 && IsPath(adj, queue[k].1) && len >= 1 ==>
      var c := Choices(adj, queue[k].1);
      LexLess(c[..len - 1], key) || (c[..len - 1] == key && c[len - 1] < bound)
  }

  /** The state of the search at the head of its outer loop. */
  ghost predicate Frontier(adj: Adj, a: State, b: State, queue: seq<Entry>, visited: set<State>) {
    a in visited &&
    QueueOk(adj, a, visited, queue) &&
    Ordered(adj, queue) &&
    (forall x :: x in visited && !InQueue(queue, x) ==> Closed(adj, visited, x)) &&
    (b in visited ==> InQueue(queue, b)) &&
    (queue != [] ==>
       Levels(queue, |queue[0].1|) &&
       IsPath(adj, queue[0].1) &&
       ParentsBelow(adj, queue, |queue[0].1|, Choices(adj, queue[0].1), 0))
  }

  /**
   * The state of the search while it walks the successors of `u`, reached by
   * `p`; the first `i` successors have been seen and `queue` is the rest of
   * the queue after `u` was taken off it.
   */
  ghost predicate Expanding(adj: Adj, a: State, b: State, u: State, p: seq<State>,
                            queue: seq<Entry>, visited: set<State>, i: nat) {
    a in visited && u != b &&
    EntryOk(adj, a, visited, (u, p)) &&
    QueueOk(adj, a, visited, queue) &&
    Levels(queue, |p|) &&
    Ordered(adj, queue) &&
    (forall k :: 0 <= k < |queue| && |queue[k].1| == |p| && IsPath(adj, queue[k].1) ==>
       LexLess(Choices(adj, p), Choices(adj, queue[k].1))) &&
    ParentsBelow(adj, queue, |p|, Choices(adj, p), i) &&
    (forall x :: x in visited && x != u && !InQueue(queue, x) ==> Closed(adj, visited, x)) &&
    i <= |Successors(adj, u)| &&
    (forall k :: 0 <= k < i ==> Successors(adj, u)[k] in visited) &&
    (b in visited ==> InQueue(queue, b))
  }

  lemma InitFrontier(adj: Adj, a: State, b: State)
    ensures Frontier(adj, a, b, [(a, [a])], {a})
  {
    var q := [a];
    assert PathFromTo(adj, q, a, a);
    assert FirstOfShortest(adj, a, a, q) by {
      forall q' | PathFromTo(adj, q', a, a) && |q'| == |q|
        ensures LexLeq(Choices(adj, q), Choices(adj, q'))
      {
        assert Choices(adj, q) == [] == Choices(adj, q');
      }
    }
    assert EntryOk(adj, a, {a}, (a, q));
    assert InQueue([(a, q)], a);
  }

  /** Taking the head off the queue starts the walk of its successors. */
  lemma PopHead(adj: Adj, a: State, b: State, queue: seq<Entry>, visited: set<State>)
    requires Frontier(adj, a, b, queue, visited) && queue != [] && queue[0].0 != b
    ensures Expanding(adj, a, b, queue[0].0, queue[0].1, queue[1..], visited, 0)
  {
    assert EntryOk(adj, a, visited, queue[0]);
    PopKeepsEntries(adj, a, queue, visited);
    PopKeepsParents(adj, queue);
    PopKeepsClosure(adj, b, queue, visited);
  }

  /** The rest of the queue keeps its entries, its levels and its order, all after the head's path. */
  lemma PopKeepsEntries(adj: Adj, a: State, queue: seq<Entry>, visited: set<State>)
    requires queue != [] && QueueOk(adj, a, visited, queue) && Ordered(adj, queue)
    requires Levels(queue, |queue[0].1|) && IsPath(adj, queue[0].1)
    ensures QueueOk(adj, a, visited, queue[1..]) && Ordered(adj, queue[1..])
    ensures Levels(queue[1..], |queue[0].1|)
    ensures forall k :: 0 <= k < |queue[1..]| && |queue[1..][k].1| == |queue[0].1| && IsPath(adj, queue[1..][k].1) ==>
              LexLess(Choices(adj, queue[0].1), Choices(adj, queue[1..][k].1))
  {
    var rest := queue[1..];
    forall k | 0 <= k < |rest| ensures rest[k] == queue[k + 1] {
    }
  }

  /** The paths queued by earlier parents stay below the head's choices. */
  lemma PopKeepsParents(adj: Adj, queue: seq<Entry>)
    requires queue != [] && IsPath(adj, queue[0].1)
    requires ParentsBelow(adj, queue, |queue[0].1|, Choices(adj, queue[0].1), 0)
    ensures ParentsBelow(adj, queue[1..], |queue[0].1|, Choices(adj, queue[0].1), 0)
  {
    var rest := queue[1..];
    forall k | 0 <= k < |rest| ensures rest[k] == queue[k + 1] {
    }
  }

  /** Every visited state other than the head that is not queued stays closed, and a visited target stays queued. */
  lemma PopKeepsClosure(adj: Adj, b: State, queue: seq<Entry>, visited: set<State>)
    requires queue != [] && queue[0].0 != b
    requires forall x :: x in visited && !InQueue(queue, x) ==> Closed(adj, visited, x)
    requires b in visited ==> InQueue(queue, b)
    ensures forall x :: x in visited && x != queue[0].0 && !InQueue(queue[1..], x) ==> Closed(adj, visited, x)
    ensures b in visited ==> InQueue(queue[1..], b)
  {
    var u := queue[0].0;
    var rest := queue[1..];
    forall x | x in visited && x != u && !InQueue(rest, x) ensures Closed(adj, visited, x) {
      assert !InQueue(queue, x) by {
        forall k | 0 <= k < |queue| && k != 0 ensures queue[k].0 != x {
          assert rest[k - 1] == queue[k];
        }
      }
    }
    if b in visited {
      var k :| 0 <= k < |queue| && queue[k].0 == b;
      assert k != 0 && rest[k - 1].0 == b;
    }
  }

  /** A successor that was already visited is passed over. */
  lemma SkipVisited(adj: Adj, a: State, b: State, u: State, p: seq<State>,
                    queue: seq<Entry>, visited: set<State>, i: nat)
    requires Expanding(adj, a, b, u, p, queue, visited, i)
    requires i < |Successors(adj, u)| && Successors(adj, u)[i] in visited
    ensures Expanding(adj, a, b, u, p, queue, visited, i + 1)
  {
  }

  /**
   * A path from the start to an unvisited successor `w` of `u` has more states
   * than `p`; one with exactly one more passes, just before `w`, through `u` or
   * through a queued state whose path is as long as `p`.
   */
  lemma CrossFrontier(adj: Adj, a: State, b: State, u: State, p: seq<State>,
                      queue: seq<Entry>, visited: set<State>, i: nat, w: State, q: seq<State>)
    requires Expanding(adj, a, b, u, p, queue, visited, i)
    requires w !in visited && PathFromTo(adj, q, a, w)
    ensures |p| + 1 <= |q|
    ensures |q| == |p| + 1 ==>
              q[|q| - 2] == u ||
              exists k :: 0 <= k < |queue| && queue[k].0 == q[|q| - 2] && |queue[k].1| == |p|
  {
    assert EntryOk(adj, a, visited, (u, p));
    LeaveThroughFrontier(adj, a, u, p, queue, visited, w, q);
  }

  /**
   * The step of `CrossFrontier` from the facts it uses: `u`'s path is shortest,
   * every other visited state off the queue is closed, and queued paths are
   * shortest and at least as long as `u`'s. It is kept apart from
   * `CrossFrontier` so that its proof does not see the whole of `Expanding`,
   * whose unfolding makes the proof far more expensive.
   */
  lemma LeaveThroughFrontier(adj: Adj, a: State, u: State, p: seq<State>,
                             queue: seq<Entry>, visited: set<State>, w: State, q: seq<State>)
    requires a in visited && Shortest(adj, a, u, p)
    requires forall x :: x in visited && x != u && !InQueue(queue, x) ==> Closed(adj, visited, x)
    requires QueueOk(adj, a, visited, queue) && Levels(queue, |p|)
    requires w !in visited && PathFromTo(adj, q, a, w)
    ensures |p| + 1 <= |q|
    ensures |q| == |p| + 1 ==>
              q[|q| - 2] == u ||
              exists k :: 0 <= k < |queue| && queue[k].0 == q[|q| - 2] && |queue[k].1| == |p|
  {
    var j := LeaveVisited(adj, q, visited);
    var y := q[j];
    assert q[j + 1] in Successors(adj, y);
    assert !Closed(adj, visited, y);
    PathPrefix(adj, q, j + 1);
    assert PathFromTo(adj, q[..j + 1], a, y);
    if y == u {
      assert |p| <= |q[..j + 1]|;
    } else {
      var k :| 0 <= k < |queue| && queue[k].0 == y;
      assert EntryOk(adj, a, visited, queue[k]);
      assert |queue[k].1| <= |q[..j + 1]|;
      assert |p| <= |queue[k].1|;
      if |q| == |p| + 1 {
        assert j == |q| - 2 && |queue[k].1| == |p|;
      }
    }
  }

  /** The path pushed for `w` is first among the shortest paths to `w`. */
  lemma PushedIsFirst(adj: Adj, a: State, b: State, u: State, p: seq<State>,
                      queue: seq<Entry>, visited: set<State>, i: nat)
    requires Expanding(adj, a, b, u, p, queue, visited, i)
    requires i < |Successors(adj, u)| && Successors(adj, u)[i] !in visited
    ensures var w := Successors(adj, u)[i];
            PathFromTo(adj, p + [w], a, w) &&
            Choices(adj, p + [w]) == Choices(adj, p) + [i] &&
            Shortest(adj, a, w, p + [w]) && FirstOfShortest(adj, a, w, p + [w])
  {
    var w := Successors(adj, u)[i];
    assert IsEdge(adj, u, w);
    PathExtend(adj, p, a, u, w);
    FirstPositionUnvisited(adj, a, b, u, p, queue, visited, i);
    forall q | PathFromTo(adj, q, a, w) ensures |p + [w]| <= |q| {
      CrossFrontier(adj, a, b, u, p, queue, visited, i, w, q);
    }
    forall q | PathFromTo(adj, q, a, w) && |q| == |p + [w]|
      ensures LexLeq(Choices(adj, p + [w]), Choices(adj, q))
    {
      PushedBeforeOthers(adj, a, b, u, p, queue, visited, i, q);
    }
  }

  /** The successors before position `i` are visited, so an unvisited one at `i` is first listed there. */
  lemma FirstPositionUnvisited(adj: Adj, a: State, b: State, u: State, p: seq<State>,
                               queue: seq<Entry>, visited: set<State>, i: nat)
    requires Expanding(adj, a, b, u, p, queue, visited, i)
    requires i < |Successors(adj, u)| && Successors(adj, u)[i] !in visited
    ensures u in adj && IndexOf(adj[u], Successors(adj, u)[i]) == i
  {
    var w := Successors(adj, u)[i];
    var idx := IndexOf(adj[u], w);
    assert !(idx < i);
    assert !(i < idx);
  }

  /** Any other path to the pushed state with as many states makes choices no less than the pushed path's. */
  lemma PushedBeforeOthers(adj: Adj, a: State, b: State, u: State, p: seq<State>,
                           queue: seq<Entry>, visited: set<State>, i: nat, q: seq<State>)
    requires Expanding(adj, a, b, u, p, queue, visited, i)
    requires i < |Successors(adj, u)| && Successors(adj, u)[i] !in visited
    requires PathFromTo(adj, q, a, Successors(adj, u)[i]) && |q| == |p| + 1
    ensures LexLeq(Choices(adj, p) + [i], Choices(adj, q))
  {
    var w := Successors(adj, u)[i];
    var key := Choices(adj, p);
    CrossFrontier(adj, a, b, u, p, queue, visited, i, w, q);
    FirstPositionUnvisited(adj, a, b, u, p, queue, visited, i);
    var x := q[|q| - 2];
    var q' := q[..|q| - 1];
    ChoicesSplit(adj, q);
    PathPrefix(adj, q, |q| - 1);
    assert PathFromTo(adj, q', a, x) && |q'| == |p|;
    var last := IndexOf(adj[x], w);
    assert Choices(adj, q) == Choices(adj, q') + [last];
    if x == u {
      assert FirstOfShortest(adj, a, u, p);
      ExtendFirst(key, Choices(adj, q'), i, last);
    } else {
      var k :| 0 <= k < |queue| && queue[k].0 == x && |queue[k].1| == |p|;
      var pk := queue[k].1;
      assert EntryOk(adj, a, visited, queue[k]);
      assert IsPath(adj, pk) && LexLess(key, Choices(adj, pk));
      assert FirstOfShortest(adj, a, x, pk) && |q'| == |pk|;
      assert LexLeq(Choices(adj, pk), Choices(adj, q'));
      ExtendBelow(key, Choices(adj, queue[k].1), Choices(adj, q'), i, last);
    }
  }

  /** A parent whose choices are least, extended by the least position, stays least. */
  lemma ExtendFirst(key: seq<nat>, c: seq<nat>, i: nat, last: nat)
    requires |key| == |c| && LexLeq(key, c) && (key == c ==> i <= last)
    ensures LexLeq(key + [i], c + [last])
  {
    if key == c {
      if i < last {
        LexExtendSame(key, i, last);
      }
    } else {
      LexExtend(key, c, i, last);
    }
  }

  /** A parent strictly below another's is, extended by any positions, strictly below. */
  lemma ExtendBelow(key: seq<nat>, c1: seq<nat>, c2: seq<nat>, i: nat, last: nat)
    requires |key| == |c1| == |c2| && LexLess(key, c1) && LexLeq(c1, c2)
    ensures LexLeq(key + [i], c2 + [last])
  {
    LexLessLeq(key, c1, c2);
    LexExtend(key, c2, i, last);
  }

  /** An unvisited successor is marked visited and queued with its path. */
  lemma PushUnvisited(adj: Adj, a: State, b: State, u: State, p: seq<State>,
                      queue: seq<Entry>, visited: set<State>, i: nat)
    requires Expanding(adj, a, b, u, p, queue, visited, i)
    requires i < |Successors(adj, u)| && Successors(adj, u)[i] !in visited
    ensures var w := Successors(adj, u)[i];
            Expanding(adj, a, b, u, p, queue + [(w, p + [w])], visited + {w}, i + 1)
  {
    var w := Successors(adj, u)[i];
    var e := (w, p + [w]);
    PushedIsFirst(adj, a, b, u, p, queue, visited, i);
    PushKeepsEntries(adj, a, u, p, queue, visited, w);
    PushKeepsOrder(adj, p, queue, e, i);
    PushKeepsLevels(adj, p, queue, e);
    PushKeepsClosure(adj, b, u, queue, visited, e);
  }

  /** The pushed path is one state longer than `p`, so the same-level facts carry over. */
  lemma PushKeepsLevels(adj: Adj, p: seq<State>, queue: seq<Entry>, e: Entry)
    requires IsPath(adj, p) && Levels(queue, |p|) && |e.1| == |p| + 1
    requires forall k :: 0 <= k < |queue| && |queue[k].1| == |p| && IsPath(adj, queue[k].1) ==>
               LexLess(Choices(adj, p), Choices(adj, queue[k].1))
    ensures Levels(queue + [e], |p|)
    ensures forall k :: (0 <= k < |queue + [e]| && |(queue + [e])[k].1| == |p| &&
                         IsPath(adj, (queue + [e])[k].1)) ==>
              LexLess(Choices(adj, p), Choices(adj, (queue + [e])[k].1))
  {
    var queue' := queue + [e];
    forall k | 0 <= k < |queue'| ensures |p| <= |queue'[k].1| <= |p| + 1 {
      if k < |queue| { assert queue'[k] == queue[k]; }
    }
    forall k, l | 0 <= k < l < |queue'| ensures |queue'[k].1| <= |queue'[l].1| {
      assert queue'[k] == queue[k];
      if l < |queue| { assert queue'[l] == queue[l]; }
    }
    forall k | 0 <= k < |queue'| && |queue'[k].1| == |p| && IsPath(adj, queue'[k].1)
      ensures LexLess(Choices(adj, p), Choices(adj, queue'[k].1))
    {
      assert k < |queue| && queue'[k] == queue[k];
    }
  }

  lemma PushKeepsEntries(adj: Adj, a: State, u: State, p: seq<State>,
                         queue: seq<Entry>, visited: set<State>, w: State)
    requires EntryOk(adj, a, visited, (u, p)) && QueueOk(adj, a, visited, queue)
    requires w !in visited
    requires PathFromTo(adj, p + [w], a, w)
    requires Shortest(adj, a, w, p + [w]) && FirstOfShortest(adj, a, w, p + [w])
    ensures EntryOk(adj, a, visited + {w}, (u, p))
    ensures QueueOk(adj, a, visited + {w}, queue + [(w, p + [w])])
  {
    var e := (w, p + [w]);
    var queue', visited' := queue + [e], visited + {w};
    assert Distinct(p + [w]) by {
      assert forall x :: x in p ==> x in visited;
    }
    assert EntryOk(adj, a, visited', e);
    forall k | 0 <= k < |queue'| ensures EntryOk(adj, a, visited', queue'[k]) {
      if k < |queue| {
        assert queue'[k] == queue[k] && EntryOk(adj, a, visited, queue[k]);
      }
    }
  }

  /** The pushed path comes after every queued path of its length, and its parent is `p`. */
  lemma PushKeepsOrder(adj: Adj, p: seq<State>, queue: seq<Entry>, e: Entry, i: nat)
    requires IsPath(adj, p) && |p| >= 1
    requires Levels(queue, |p|) && Ordered(adj, queue)
    requires ParentsBelow(adj, queue, |p|, Choices(adj, p), i)
    requires IsPath(adj, e.1) && |e.1| == |p| + 1 && Choices(adj, e.1) == Choices(adj, p) + [i]
    ensures Ordered(adj, queue + [e])
    ensures ParentsBelow(adj, queue + [e], |p|, Choices(adj, p), i + 1)
  {
    var key := Choices(adj, p);
    var queue' := queue + [e];
    forall k, l | 0 <= k < l < |queue'| && |queue'[k].1| == |queue'[l].1| &&
                  IsPath(adj, queue'[k].1) && IsPath(adj, queue'[l].1)
      ensures LexLess(Choices(adj, queue'[k].1), Choices(adj, queue'[l].1))
    {
      if l == |queue| {
        assert queue'[k] == queue[k];
        var c := Choices(adj, queue[k].1);
        assert LexLess(c[..|p| - 1], key) || (c[..|p| - 1] == key && c[|p| - 1] < i);
        assert c == c[..|p| - 1] + [c[|p| - 1]];
        if LexLess(c[..|p| - 1], key) {
          LexExtend(c[..|p| - 1], key, c[|p| - 1], i);
        } else {
          LexExtendSame(key, c[|p| - 1], i);
        }
      } else {
        assert queue'[k] == queue[k] && queue'[l] == queue[l];
      }
    }
    forall k | 0 <= k < |queue'| && |queue'[k].1| == |p| + 1 && IsPath(adj, queue'[k].1) && |p| >= 1
      ensures var c := Choices(adj, queue'[k].1);
              LexLess(c[..|p| - 1], key) || (c[..|p| - 1] == key && c[|p| - 1] < i + 1)
    {
      if k == |queue| {
        assert (key + [i])[..|p| - 1] == key;
      } else {
        assert queue'[k] == queue[k];
      }
    }
  }

  lemma PushKeepsClosure(adj: Adj, b: State, u: State, queue: seq<Entry>, visited: set<State>, e: Entry)
    requires forall x :: x in visited && x != u && !InQueue(queue, x) ==> Closed(adj, visited, x)
    requires b in visited ==> InQueue(queue, b)
    ensures forall x :: x in visited + {e.0} && x != u && !InQueue(queue + [e], x) ==>
              Closed(adj, visited + {e.0}, x)
    ensures b in visited + {e.0} ==> InQueue(queue + [e], b)
  {
    var queue', visited' := queue + [e], visited + {e.0};
    forall x | x in visited' && x != u && !InQueue(queue', x) ensures Closed(adj, visited', x) {
      assert x != e.0 by { assert queue'[|queue|].0 == e.0; }
      assert !InQueue(queue, x) by {
        forall k | 0 <= k < |queue| ensures queue[k].0 != x {
          assert queue'[k].0 == queue[k].0;
        }
      }
    }
    if b in visited' {
      if b == e.0 {
        assert queue'[|queue|].0 == b;
      } else {
        var k :| 0 <= k < |queue| && queue[k].0 == b;
        assert queue'[k].0 == b;
      }
    }
  }

  /** Once every successor of `u` has been seen, `u` is closed. */
  lemma CloseExpanded(adj: Adj, a: State, b: State, u: State, p: seq<State>,
                      queue: seq<Entry>, visited: set<State>)
    requires Expanding(adj, a, b, u, p, queue, visited, |Successors(adj, u)|)
    ensures Frontier(adj, a, b, queue, visited)
  {
    var key := Choices(adj, p);
    forall x | x in visited && !InQueue(queue, x) ensures Closed(adj, visited, x) {
      if x == u {
        forall y | y in Successors(adj, u) ensures y in visited {
          var k :| 0 <= k < |Successors(adj, u)| && Successors(adj, u)[k] == y;
        }
      }
    }
    if queue != [] {
      var head := queue[0].1;
      assert EntryOk(adj, a, visited, queue[0]);
      if |head| == |p| {
        var hk := Choices(adj, head);
        assert LexLess(key, hk);
        forall k | 0 <= k < |queue| && |queue[k].1| == |head| + 1 && IsPath(adj, queue[k].1) && |head| >= 1
          ensures var c := Choices(adj, queue[k].1);
                  LexLess(c[..|head| - 1], hk) || (c[..|head| - 1] == hk && c[|head| - 1] < 0)
        {
          var c := Choices(adj, queue[k].1);
          assert LexLess(c[..|p| - 1], key) || c[..|p| - 1] == key;
          if c[..|p| - 1] != key {
            LexTrans(c[..|p| - 1], key, hk);
          }
        }
      }
    }
  }

  /** The head of the queue is the target: its path, less the start, is the answer. */
  lemma FoundTarget(adj: Adj, a: State, b: State, queue: seq<Entry>, visited: set<State>)
    requires Frontier(adj, a, b, queue, visited) && queue != [] && queue[0].0 == b
    ensures a == b ==> queue[0].1[1..] == []
    ensures a != b ==> queue[0].1[1..] != [] && BfsPath(adj, a, b, queue[0].1[1..])
  {
    var p := queue[0].1;
    assert EntryOk(adj, a, visited, queue[0]);
    assert p == [a] + p[1..];
    if a == b {
      assert PathFromTo(adj, [a], a, b);
      assert |p| <= 1;
    }
  }

  /** An empty queue means every state reachable from the start was visited, the target not among them. */
  lemma ExhaustedUnreachable(adj: Adj, a: State, b: State, visited: set<State>)
    requires Frontier(adj, a, b, [], visited)
    ensures !Reachable(adj, a, b) && a != b
  {
    assert PathFromTo(adj, [a], a, a);
    if Reachable(adj, a, b) {
      var q :| PathFromTo(adj, q, a, b);
      var j := LeaveVisited(adj, q, visited);
    }
  }
}
