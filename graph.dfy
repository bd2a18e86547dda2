/**
 * The transition graph: the compiled adjacency map of a declarative tree,
 * the set of manual states and the strict flag, with the queries the engine
 * asks of it and the breadth-first search for a transition path.
 */
module Graph {
  import opened TransitionKeys
  import opened Errors
  import opened Adjacency
  import opened Paths

  /** The options a graph is built from; absent optional fields are `None`. */
  datatype Options = Options(root: Node, manual: Option<seq<State>>, strict: Option<bool>)

  /** Every state that occurs in `adj`, as a key or as a successor. */
  ghost function StatesOf(adj: Adj): set<State> {
    adj.Keys + set s, t | s in adj && t in adj[s] :: t
  }

  /** `rank` strictly decreases along every edge of `adj`: the map has no cycle. */
  ghost predicate Ranked(adj: Adj, rank: map<State, nat>) {
    forall s, t :: s in adj && t in adj[s] ==> s in rank && t in rank && rank[t] < rank[s]
  }

  ghost function Height(rank: map<State, nat>, s: State): nat {
    if s in rank then rank[s] else 0
  }

  /** The box-drawing prefix of an entry, by whether it is its parent's last. */
  function Branch(isLast: bool): string {
    if isLast then "└─" else "├─"
  }

  /** What an entry adds to the indentation of its own children. */
  function Extension(isLast: bool): string {
    if isLast then "  " else "│ "
  }

  /** Visiting a state of `universe` not yet visited leaves fewer states to visit. */
  lemma VisitShrinks(universe: set<State>, visited: set<State>, w: State)
    requires w in universe && w !in visited
    ensures |universe - (visited + {w})| < |universe - visited|
  {
    assert universe - (visited + {w}) == (universe - visited) - {w};
  }

  /**
   * The entries one round of the search queues for the successors `ws` of a
   * state reached by `p`: each state of `ws` that is neither in `visited` nor
   * earlier in `ws`, with its path, in list order.
   */
  ghost function Pushed(ws: seq<State>, p: seq<State>, visited: set<State>): seq<Entry>
    decreases |ws|
  {
    if ws == [] then []
    else
      var pre, w := ws[..|ws| - 1], ws[|ws| - 1];
      Pushed(pre, p, visited) + (if w in visited || w in pre then [] else [(w, p + [w])])
  }

  /** The states a list holds, gathered first to last. */
  ghost function Elems(ws: seq<State>): set<State>
    decreases |ws|
  {
    if ws == [] then {} else Elems(ws[..|ws| - 1]) + {ws[|ws| - 1]}
  }

  /** `Elems` holds exactly the states of the list. */
  lemma {:induction false} ElemsMembers(ws: seq<State>, x: State)
    ensures x in Elems(ws) <==> x in ws
    decreases |ws|
  {
    if ws != [] {
      var pre := ws[..|ws| - 1];
      ElemsMembers(pre, x);
      assert ws == pre + [ws[|ws| - 1]];
    }
  }

  /**
   * Handling the successor at position `i` the way `Visit` does extends the
   * round's queue by its entry exactly when it is new, and marks it visited.
   */
  lemma ExpandStep(ws: seq<State>, i: nat, p: seq<State>, queue0: seq<Entry>, visited0: set<State>,
                   q: seq<Entry>, v: set<State>, queue: seq<Entry>, visited: set<State>)
    requires i < |ws|
    requires q == queue0 + Pushed(ws[..i], p, visited0) && v == visited0 + Elems(ws[..i])
    requires ws[i] !in v ==> visited == v + {ws[i]} && queue == q + [(ws[i], p + [ws[i]])]
    requires ws[i] in v ==> visited == v && queue == q
    ensures queue == queue0 + Pushed(ws[..i + 1], p, visited0)
    ensures visited == visited0 + Elems(ws[..i + 1])
  {
    var pre, w, ws1 := ws[..i], ws[i], ws[..i + 1];
    assert ws1[..|ws1| - 1] == pre && ws1[|ws1| - 1] == w;
    ElemsMembers(pre, w);
    assert w in v <==> w in visited0 || w in pre;
    assert Elems(ws1) == Elems(pre) + {w};
    if w in v {
      assert Pushed(ws1, p, visited0) == Pushed(pre, p, visited0) + [];
    } else {
      assert Pushed(ws1, p, visited0) == Pushed(pre, p, visited0) + [(w, p + [w])];
      assert queue0 + Pushed(pre, p, visited0) + [(w, p + [w])]
          == queue0 + (Pushed(pre, p, visited0) + [(w, p + [w])]);
    }
  }

  /**
   * The queue and visited set after one round of the search has handled the
   * successors `ws`, in list order, starting from `queue0` and `visited0`:
   * a state not yet visited is marked visited and queued with `p` extended
   * by it; a visited one changes nothing.
   */
  ghost function Round(ws: seq<State>, p: seq<State>, queue0: seq<Entry>, visited0: set<State>)
    : (seq<Entry>, set<State>)
    decreases |ws|
  {
    if ws == [] then (queue0, visited0)
    else
      var r, w := Round(ws[..|ws| - 1], p, queue0, visited0), ws[|ws| - 1];
      if w in r.1 then r else (r.0 + [(w, p + [w])], r.1 + {w})
  }

  /**
   * A round appends to the queue the entries `Pushed` lists and adds every
   * successor to the visited set.
   */
  lemma {:induction false} RoundPushes(ws: seq<State>, p: seq<State>, queue0: seq<Entry>, visited0: set<State>)
    ensures Round(ws, p, queue0, visited0) == (queue0 + Pushed(ws, p, visited0), visited0 + Elems(ws))
    decreases |ws|
  {
    if ws == [] {
      assert queue0 + Pushed(ws, p, visited0) == queue0;
      assert visited0 + Elems(ws) == visited0;
    } else {
      var i := |ws| - 1;
      var pre := ws[..i];
      RoundPushes(pre, p, queue0, visited0);
      var r := Round(pre, p, queue0, visited0);
      var w := ws[i];
      var queue, visited := if w in r.1 then r.0 else r.0 + [(w, p + [w])], if w in r.1 then r.1 else r.1 + {w};
      ExpandStep(ws, i, p, queue0, visited0, r.0, r.1, queue, visited);
      assert ws[..i + 1] == ws;
      assert Round(ws, p, queue0, visited0) == (queue, visited);
    }
  }

  /** Handling the successor at position `i` extends the round by one state. */
  lemma RoundStep(ws: seq<State>, i: nat, p: seq<State>, queue0: seq<Entry>, visited0: set<State>,
                  q: seq<Entry>, v: set<State>, queue: seq<Entry>, visited: set<State>)
    requires i < |ws| && (q, v) == Round(ws[..i], p, queue0, visited0)
    requires ws[i] !in v ==> visited == v + {ws[i]} && queue == q + [(ws[i], p + [ws[i]])]
    requires ws[i] in v ==> visited == v && queue == q
    ensures (queue, visited) == Round(ws[..i + 1], p, queue0, visited0)
  {
    assert ws[..i + 1][..i] == ws[..i];
  }

  const Footer: string := "\n(*) Only manual transitions"

  class StateMachineGraph {
    const options: Options
    const adj: Adj
    const manual: set<State>
    const strict: bool

    /** The fields are what the constructor derives from `options`. */
    ghost predicate Valid() {
      adj == Compile(options.root) &&
      (forall x :: x in manual <==> options.manual.Some? && x in options.manual.value) &&
      strict == (options.strict == Some(true))
    }

    constructor (options: Options)
      ensures this.options == options && Valid()
    {
      this.options := options;
      var m := Build(options.root);
      adj := m;
      manual := if options.manual.Some? then set x | x in options.manual.value else {};
      strict := options.strict == Some(true);
    }

    /** Compiles the tree rooted at `root` into its adjacency map. */
    static method Build(root: Node) returns (m: Adj)
      ensures m == Compile(root)
    {
      m := Reduce(root, map[]);
    }

    /**
     * Walks `node`'s children in order: each adds an edge from `node`'s state
     * to its own state, and a nested child is then walked itself.
     */
    static method Reduce(node: Node, m0: Adj) returns (m: Adj)
      ensures m == AddEdges(m0, Edges(node))
      decreases node
    {
      var children := Children(node);
      m := m0;
      for i := 0 to |children|
        invariant m == AddEdges(m0, EdgesUpTo(node, i))
      {
        var c := children[i];
        m := m[node.state := Successors(m, node.state) + [StateOf(c)]];
        AddEdgesSnoc(m0, EdgesUpTo(node, i), (node.state, StateOf(c)));
        ghost var upTo := EdgesUpTo(node, i) + [(node.state, StateOf(c))];
        assert m == AddEdges(m0, upTo);
        match c
        case Leaf(_) =>
          assert EdgesUpTo(node, i + 1) == upTo + [] == upTo;
        case Sub(n) =>
          assert EdgesUpTo(node, i + 1) == upTo + Edges(n);
          AddEdgesAppend(m0, upTo, Edges(n));
          SubSmaller(node, i);
          m := Reduce(n, m);
      }
    }

    /** The successors of `state`, without the manual ones unless `includeManual`. */
    function GetNextStates(state: State, includeManual: bool): (r: seq<State>)
      ensures includeManual ==> r == Successors(adj, state)
      ensures !includeManual ==> r == WithoutManual(Successors(adj, state), manual)
      ensures forall x :: x in r <==> x in Successors(adj, state) && (includeManual || x !in manual)
      ensures state !in adj ==> r == []
    {
      var all := Successors(adj, state);
      if includeManual then all else WithoutManual(all, manual)
    }

    /**
     * In a graph built from its options, the next states of `state` are the
     * targets of the tree's edges from `state`, less the manual ones when asked.
     */
    lemma NextStatesOfTree(state: State, includeManual: bool)
      requires Valid()
      ensures forall x :: x in GetNextStates(state, includeManual) <==>
                (state, x) in Edges(options.root) &&
                (includeManual || options.manual == None || x !in options.manual.value)
    {
      CompileSuccessors(options.root, state);
      forall x ensures x in Successors(adj, state) <==> (state, x) in Edges(options.root) {
        TargetsMember(Edges(options.root), state, x);
      }
    }

    /**
     * A state is final when the map holds no key for it; in a graph built
     * from its options, that is when it has no next state.
     */
    function IsFinalState(state: State): (r: bool)
      ensures Valid() ==> (r <==> GetNextStates(state, true) == [])
    {
      CompileSuccessors(options.root, state);
      state !in adj
    }

    /**
     * In a graph built from its options, a state is final exactly when it has
     * no next state, that is, when the tree has no edge leaving it.
     */
    lemma FinalIffNoNextStates(state: State)
      requires Valid()
      ensures IsFinalState(state) <==> GetNextStates(state, true) == []
      ensures IsFinalState(state) <==> forall x :: (state, x) !in Edges(options.root)
    {
      CompileSuccessors(options.root, state);
      forall x ensures x in Successors(adj, state) <==> (state, x) in Edges(options.root) {
        TargetsMember(Edges(options.root), state, x);
      }
      if Successors(adj, state) != [] {
        assert (state, Successors(adj, state)[0]) in Edges(options.root);
      }
    }

    /**
     * Breadth-first search from `a` to `b`, manual edges included. Returns the
     * states after `a` of the shortest path, first in declaration order; when
     * there is none, fails in strict mode and returns no states otherwise.
     */
    method Transitions(a: State, b: State) returns (r: Result<seq<State>>)
      ensures a == b ==> r == Ok([])
      ensures r.Ok? && r.value != [] ==> BfsPath(adj, a, b, r.value)
      ensures a != b ==> (r.Ok? && r.value != [] <==> Reachable(adj, a, b))
      ensures !Reachable(adj, a, b) ==>
                r == if strict then Err(NoTransitionFound(a, b)) else Ok([])
    {
      var queue: seq<Entry> := [(a, [a])];
      var visited: set<State> := {a};
      ghost var universe := StatesOf(adj) + {a};
      InitFrontier(adj, a, b);
      while queue != []
        invariant Frontier(adj, a, b, queue, visited)
        invariant visited <= universe
        decreases |universe - visited|, |queue|
      {
        ghost var queue0, visited0 := queue, visited;
        var (u, p) := queue[0];
        queue := queue[1..];
        if u == b {
          FoundTarget(adj, a, b, queue0, visited);
          if a != b {
            BfsPathReachable(adj, a, b, p[1..]);
          }
          return Ok(p[1..]);
        }
        PopHead(adj, a, b, queue0, visited);
        queue, visited := Expand(a, b, u, p, queue, visited, universe);
      }
      ExhaustedUnreachable(adj, a, b, visited);
      if strict {
        return Err(NoTransitionFound(a, b));
      }
      return Ok([]);
    }

    /**
     * One round of the search: every successor of `u` (reached by `p`) not yet
     * visited is marked visited and queued with its path, in list order
     * (`Round`, whose entries `RoundPushes` lists).
     */
    method Expand(ghost a: State, ghost b: State, u: State, p: seq<State>,
                  queue0: seq<Entry>, visited0: set<State>, ghost universe: set<State>)
      returns (queue: seq<Entry>, visited: set<State>)
      requires Expanding(adj, a, b, u, p, queue0, visited0, 0)
      requires visited0 <= universe && StatesOf(adj) <= universe
      ensures Frontier(adj, a, b, queue, visited)
      ensures visited <= universe
      ensures (visited == visited0 && queue == queue0) || |universe - visited| < |universe - visited0|
      ensures (queue, visited) == Round(Successors(adj, u), p, queue0, visited0)
    {
      queue, visited := queue0, visited0;
      var nextStates := GetNextStates(u, true);
      assert nextStates == Successors(adj, u);
      for i := 0 to |nextStates|
        invariant Expanding(adj, a, b, u, p, queue, visited, i)
        invariant visited <= universe
        invariant (visited == visited0 && queue == queue0) || |universe - visited| < |universe - visited0|
        invariant (queue, visited) == Round(Successors(adj, u)[..i], p, queue0, visited0)
      {
        ghost var q, v := queue, visited;
        queue, visited := Visit(a, b, u, p, queue, visited, i, nextStates[i], universe);
        RoundStep(Successors(adj, u), i, p, queue0, visited0, q, v, queue, visited);
      }
      assert Successors(adj, u)[..|nextStates|] == Successors(adj, u);
      CloseExpanded(adj, a, b, u, p, queue, visited);
    }

    /**
     * Handles the successor `w` at position `i`: if unvisited, it is marked
     * visited and queued with its path; otherwise nothing changes.
     */
    method Visit(ghost a: State, ghost b: State, u: State, p: seq<State>,
                 queue0: seq<Entry>, visited0: set<State>, ghost i: nat, w: State, ghost universe: set<State>)
      returns (queue: seq<Entry>, visited: set<State>)
      requires Expanding(adj, a, b, u, p, queue0, visited0, i)
      requires i < |Successors(adj, u)| && w == Successors(adj, u)[i]
      requires visited0 <= universe && StatesOf(adj) <= universe
      ensures Expanding(adj, a, b, u, p, queue, visited, i + 1)
      ensures visited <= universe
      ensures (visited == visited0 && queue == queue0) || |universe - visited| < |universe - visited0|
      ensures w !in visited0 ==> visited == visited0 + {w} && queue == queue0 + [(w, p + [w])]
      ensures w in visited0 ==> visited == visited0 && queue == queue0
    {
      if w !in visited0 {
        PushUnvisited(adj, a, b, u, p, queue0, visited0, i);
        assert w in StatesOf(adj) by {
          assert u in adj && w in adj[u];
        }
        VisitShrinks(universe, visited0, w);
        visited := visited0 + {w};
        queue := queue0 + [(w, p + [w])];
      } else {
        SkipVisited(adj, a, b, u, p, queue0, visited0, i);
        queue, visited := queue0, visited0;
      }
    }

    /** The label of a state in the diagram: manual states are marked `(*)`. */
    function Label(state: State): (l: string)
      ensures l == state || l == state + "(*)"
      ensures Valid() ==> (l == state + "(*)" <==> options.manual.Some? && state in options.manual.value)
    {
      if state in manual then state + "(*)" else state
    }

    /** The line `Print` writes for `state` itself. */
    function Line(state: State, indent: string, isLast: bool): string {
      indent + Branch(isLast) + Label(state) + "\n"
    }

    /**
     * Appends to `prev` the entry of `state` and, below it, the entries of its
     * successors, each indented one step further.
     */
    function Print(ghost rank: map<State, nat>, state: State, indent: string, isLast: bool,
                   prev: string): string
      requires Ranked(adj, rank)
      decreases Height(rank, state), 1, 0
    {
      var acc := prev + Line(state, indent, isLast);
      if state in adj then PrintChildren(rank, state, 0, indent + Extension(isLast), acc) else acc
    }

    /** Folds `Print` over the successors of `state` from position `idx` on. */
    function PrintChildren(ghost rank: map<State, nat>, state: State, idx: nat, indent: string,
                           acc: string): string
      requires Ranked(adj, rank) && state in adj && idx <= |adj[state]|
      decreases Height(rank, state), 0, |adj[state]| - idx
    {
      var ts := adj[state];
      if idx == |ts| then acc
      else PrintChildren(rank, state, idx + 1, indent, Print(rank, ts[idx], indent, idx == |ts| - 1, acc))
    }

    /** Printing onto `prev` is printing alone and appending the result to `prev`. */
    lemma {:induction false} PrintAppends(rank: map<State, nat>, state: State, indent: string,
                                          isLast: bool, prev: string)
      requires Ranked(adj, rank)
      ensures Print(rank, state, indent, isLast, prev) == prev + Print(rank, state, indent, isLast, "")
      decreases Height(rank, state), 1, 0
    {
      var line := Line(state, indent, isLast);
      assert "" + line == line;
      if state in adj {
        var ext := indent + Extension(isLast);
        PrintChildrenAppends(rank, state, 0, ext, prev + line);
        PrintChildrenAppends(rank, state, 0, ext, line);
        assert prev + line + PrintChildren(rank, state, 0, ext, "")
            == prev + (line + PrintChildren(rank, state, 0, ext, ""));
      }
    }

    lemma {:induction false} PrintChildrenAppends(rank: map<State, nat>, state: State, idx: nat,
                                                  indent: string, acc: string)
      requires Ranked(adj, rank) && state in adj && idx <= |adj[state]|
      ensures PrintChildren(rank, state, idx, indent, acc) == acc + PrintChildren(rank, state, idx, indent, "")
      decreases Height(rank, state), 0, |adj[state]| - idx
    {
      var ts := adj[state];
      if idx < |ts| {
        var isLast := idx == |ts| - 1;
        var own := Print(rank, ts[idx], indent, isLast, "");
        PrintAppends(rank, ts[idx], indent, isLast, acc);
        PrintAppends(rank, ts[idx], indent, isLast, "");
        PrintChildrenAppends(rank, state, idx + 1, indent, acc + own);
        PrintChildrenAppends(rank, state, idx + 1, indent, own);
        assert acc + own + PrintChildren(rank, state, idx + 1, indent, "")
            == acc + (own + PrintChildren(rank, state, idx + 1, indent, ""));
      } else {
        assert acc + "" == acc;
      }
    }

    /**
     * The entry of `state` is its own line followed, when it has successors,
     * by their entries in list order, indented one step further.
     */
    lemma PrintEntry(rank: map<State, nat>, state: State, indent: string, isLast: bool)
      requires Ranked(adj, rank)
      ensures Print(rank, state, indent, isLast, "")
              == Line(state, indent, isLast) +
                 (if state in adj then PrintChildren(rank, state, 0, indent + Extension(isLast), "") else "")
    {
      var line := Line(state, indent, isLast);
      assert "" + line == line;
      if state in adj {
        PrintChildrenAppends(rank, state, 0, indent + Extension(isLast), line);
      } else {
        assert line + "" == line;
      }
    }

    lemma PrintChildrenStep(rank: map<State, nat>, state: State, idx: nat, indent: string)
      requires Ranked(adj, rank) && state in adj && idx < |adj[state]|
      ensures PrintChildren(rank, state, idx, indent, "")
              == Print(rank, adj[state][idx], indent, idx == |adj[state]| - 1, "") +
                 PrintChildren(rank, state, idx + 1, indent, "")
    {
      var own := Print(rank, adj[state][idx], indent, idx == |adj[state]| - 1, "");
      PrintChildrenAppends(rank, state, idx + 1, indent, own);
    }

    /** The whole diagram: a blank line, the tree from the root's state, and the legend. */
    function Diagram(ghost rank: map<State, nat>): (d: string)
      requires Ranked(adj, rank)
      ensures |d| >= 1 + |Line(options.root.state, "", true)| + |Footer|
      ensures d[..1] == "\n"
      ensures d[1..1 + |Line(options.root.state, "", true)|] == Line(options.root.state, "", true)
      ensures d[|d| - |Footer|..] == Footer
    {
      var line := Line(options.root.state, "", true);
      var body := Print(rank, options.root.state, "", true, "");
      PrintEntry(rank, options.root.state, "", true);
      var d := "\n" + body + Footer;
      assert d == "\n" + line + (body[|line|..] + Footer);
      d
    }
  }
}
