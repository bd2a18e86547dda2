/**
 * The declarative transition tree and the adjacency map it compiles to.
 *
 * Compiling walks the tree depth first: every child of a node adds one edge
 * from the node's state to the child's state, in declaration order, and a
 * nested child is then walked itself. The adjacency map lists, for each
 * state, the targets of its edges in the order the walk met them.
 */
module Adjacency {
  import opened TransitionKeys

  /** A node of the declarative tree. */
  datatype Node = Node(state: State, next: Next)

  /** A node's `next`: one bare child, or a list of children. */
  datatype Next = Single(child: Child) | List(children: seq<Child>)

  /** A child: a bare state, or a nested node with descendants of its own. */
  datatype Child = Leaf(state: State) | Sub(node: Node)

  /** The children of `n`, a single child normalised to a one-element list. */
  function Children(n: Node): seq<Child> {
    match n.next
    case Single(c) => [c]
    case List(cs) => cs
  }

  function StateOf(c: Child): State {
    match c
    case Leaf(s) => s
    case Sub(m) => m.state
  }

  /** The states of `n`'s children, in declaration order; each is the target of an edge from `n`. */
  function ChildStates(n: Node): (ss: seq<State>)
    ensures |ss| == |Children(n)|
    ensures forall j :: 0 <= j < |ss| ==> ss[j] == StateOf(Children(n)[j])
    ensures forall j :: 0 <= j < |ss| ==> (n.state, ss[j]) in Edges(n)
  {
    ChildEdges(n);
    var cs := Children(n);
    seq(|cs|, j requires 0 <= j < |cs| => StateOf(cs[j]))
  }

  /** The walk of `n` adds an edge from `n`'s state to each of its children's states. */
  lemma ChildEdges(n: Node)
    ensures forall j :: 0 <= j < |Children(n)| ==> (n.state, StateOf(Children(n)[j])) in Edges(n)
  {
    forall j | 0 <= j < |Children(n)| ensures (n.state, StateOf(Children(n)[j])) in Edges(n) {
      assert (n.state, StateOf(Children(n)[j])) in EdgesUpTo(n, j + 1);
      PrefixEdgesIncluded(n, j + 1, |Children(n)|);
    }
  }

  /** A nested child is structurally smaller than its parent. */
  lemma SubSmaller(n: Node, i: nat)
    requires i < |Children(n)| && Children(n)[i].Sub?
    ensures Children(n)[i].node < n
  {
    match n.next
    case Single(c) =>
    case List(cs) => assert cs[i] in cs;
  }

  type Edge = (State, State)

  /** The edges the walk of `n` produces while visiting its first `k` children. */
  function EdgesUpTo(n: Node, k: nat): seq<Edge>
    requires k <= |Children(n)|
    decreases n, k
  {
    if k == 0 then []
    else
      var c := Children(n)[k - 1];
      EdgesUpTo(n, k - 1) + [(n.state, StateOf(c))] +
      match c
      case Leaf(_) => []
      case Sub(m) => Edges(m)
  }

  /** All edges of the tree rooted at `n`, in the order the walk produces them. */
  function Edges(n: Node): seq<Edge>
    decreases n, |Children(n)| + 1
  {
    EdgesUpTo(n, |Children(n)|)
  }

  /** State to ordered successor list. */
  type Adj = map<State, seq<State>>

  /** The list of `s`, or the empty list when `s` has no key (`map.get(s) ?? []`). */
  function Successors(m: Adj, s: State): seq<State> {
    if s in m then m[s] else []
  }

  /** Appends the target of `e` to its source's list. */
  function AddEdge(m: Adj, e: Edge): (m': Adj)
    ensures m'.Keys == m.Keys + {e.0}
    ensures Successors(m', e.0) == Successors(m, e.0) + [e.1]
    ensures forall s :: s != e.0 ==> Successors(m', s) == Successors(m, s)
  {
    m[e.0 := Successors(m, e.0) + [e.1]]
  }

  /** Appends the edges `es`, first to last. */
  function AddEdges(m: Adj, es: seq<Edge>): Adj
    decreases |es|
  {
    if es == [] then m else AddEdges(AddEdge(m, es[0]), es[1..])
  }

  /** The targets of the edges in `es` that leave `s`, in order. */
  function Targets(es: seq<Edge>, s: State): seq<State>
    decreases |es|
  {
    if es == [] then []
    else (if es[0].0 == s then [es[0].1] else []) + Targets(es[1..], s)
  }

  /** The adjacency map of the tree rooted at `root`. */
  function Compile(root: Node): Adj {
    AddEdges(map[], Edges(root))
  }

  lemma {:induction false} TargetsAppend(xs: seq<Edge>, ys: seq<Edge>, s: State)
    ensures Targets(xs + ys, s) == Targets(xs, s) + Targets(ys, s)
    decreases |xs|
  {
    if xs == [] {
      assert xs + ys == ys;
    } else {
      assert (xs + ys)[0] == xs[0] && (xs + ys)[1..] == xs[1..] + ys;
      TargetsAppend(xs[1..], ys, s);
    }
  }

  /** `x` is a target of `s` in `es` exactly when `es` holds the edge from `s` to `x`. */
  lemma {:induction false} TargetsMember(es: seq<Edge>, s: State, x: State)
    ensures x in Targets(es, s) <==> (s, x) in es
    decreases |es|
  {
    if es != [] {
      TargetsMember(es[1..], s, x);
      assert es == [es[0]] + es[1..];
    }
  }

  /** Adding edges one by one equals adding them in two batches. */
  lemma {:induction false} AddEdgesAppend(m: Adj, xs: seq<Edge>, ys: seq<Edge>)
    ensures AddEdges(m, xs + ys) == AddEdges(AddEdges(m, xs), ys)
    decreases |xs|
  {
    if xs == [] {
      assert xs + ys == ys;
    } else {
      assert (xs + ys)[0] == xs[0] && (xs + ys)[1..] == xs[1..] + ys;
      AddEdgesAppend(AddEdge(m, xs[0]), xs[1..], ys);
    }
  }

  /** Adding one edge more is one more `AddEdge`. */
  lemma AddEdgesSnoc(m: Adj, es: seq<Edge>, e: Edge)
    ensures AddEdges(m, es + [e]) == AddEdge(AddEdges(m, es), e)
  {
    AddEdgesAppend(m, es, [e]);
    assert AddEdges(AddEdges(m, es), [e]) == AddEdges(AddEdge(AddEdges(m, es), e), []);
  }

  /**
   * After adding `es`, the list of `s` is its old list followed by the targets
   * of the added edges leaving `s`; `s` has a key iff it had one or gained an edge.
   */
  lemma {:induction false} AddEdgesLookup(m: Adj, es: seq<Edge>, s: State)
    ensures Successors(AddEdges(m, es), s) == Successors(m, s) + Targets(es, s)
    ensures s in AddEdges(m, es) <==> s in m || Targets(es, s) != []
    decreases |es|
  {
    if es != [] {
      AddEdgesLookup(AddEdge(m, es[0]), es[1..], s);
    }
  }

  /**
   * The compiled list of `s` is exactly the targets of the tree's edges leaving
   * `s`, in walk order and with repetitions kept; every key has a non-empty list.
   */
  lemma CompileSuccessors(root: Node, s: State)
    ensures Successors(Compile(root), s) == Targets(Edges(root), s)
    ensures s in Compile(root) <==> Successors(Compile(root), s) != []
  {
    AddEdgesLookup(map[], Edges(root), s);
  }

  /**
   * When no nested child re-declares the node's own state as a source, the
   * node's list is its children's states in declaration order, repetitions kept.
   */
  lemma RootSuccessors(n: Node)
    requires forall j :: 0 <= j < |Children(n)| && Children(n)[j].Sub? ==>
               Targets(Edges(Children(n)[j].node), n.state) == []
    ensures Targets(Edges(n), n.state) == ChildStates(n)
  {
    RootSuccessorsUpTo(n, |Children(n)|);
  }

  lemma {:induction false} RootSuccessorsUpTo(n: Node, k: nat)
    requires k <= |Children(n)|
    requires forall j :: 0 <= j < k && Children(n)[j].Sub? ==>
               Targets(Edges(Children(n)[j].node), n.state) == []
    ensures Targets(EdgesUpTo(n, k), n.state) == ChildStates(n)[..k]
  {
    if k > 0 {
      RootSuccessorsUpTo(n, k - 1);
      var c := Children(n)[k - 1];
      var rest: seq<Edge> := match c case Leaf(_) => [] case Sub(m) => Edges(m);
      var edge: seq<Edge> := [(n.state, StateOf(c))];
      assert EdgesUpTo(n, k) == EdgesUpTo(n, k - 1) + edge + rest;
      assert Targets(rest, n.state) == [] by {
        if c.Sub? {
          assert 0 <= k - 1 < k && Children(n)[k - 1].Sub?;
        }
      }
      assert Targets(edge, n.state) == [StateOf(c)];
      TargetsAppend(EdgesUpTo(n, k - 1) + edge, rest, n.state);
      TargetsAppend(EdgesUpTo(n, k - 1), edge, n.state);
      assert ChildStates(n)[..k] == ChildStates(n)[..k - 1] + [StateOf(c)];
    }
  }

  /** Every edge of a nested child's subtree is an edge of the whole tree. */
  lemma {:induction false} NestedEdgesIncluded(n: Node, k: nat, e: Edge)
    requires k < |Children(n)| && Children(n)[k].Sub?
    requires e in Edges(Children(n)[k].node)
    ensures e in Edges(n)
  {
    PrefixEdgesIncluded(n, k + 1, |Children(n)|);
  }

  lemma {:induction false} PrefixEdgesIncluded(n: Node, k: nat, l: nat)
    requires k <= l <= |Children(n)|
    ensures forall e :: e in EdgesUpTo(n, k) ==> e in EdgesUpTo(n, l)
    decreases l - k
  {
    if k < l {
      PrefixEdgesIncluded(n, k, l - 1);
    }
  }

  /** Repeated children are not deduplicated. */
  lemma NoDeduplication()
    ensures Compile(Node("a", List([Leaf("b"), Leaf("b")]))) == map["a" := ["b", "b"]]
  {
    var n := Node("a", List([Leaf("b"), Leaf("b")]));
    assert EdgesUpTo(n, 1) == [("a", "b")];
    assert Edges(n) == [("a", "b"), ("a", "b")];
    var m1 := AddEdge(map[], ("a", "b"));
    assert Successors(map[], "a") == [];
    assert [] + ["b"] == ["b"];
    assert m1 == map["a" := ["b"]];
    assert Successors(m1, "a") + ["b"] == ["b", "b"];
    assert AddEdges(m1, [("a", "b")]) == AddEdges(AddEdge(m1, ("a", "b")), []);
  }

  /** A root whose `next` is empty gives no key at all. */
  lemma EmptyRootHasNoKey(s: State)
    ensures Compile(Node(s, List([]))) == map[]
  {
    assert Edges(Node(s, List([]))) == [];
  }

  /** `xs` without the states of `manual`, in the original order. */
  function WithoutManual(xs: seq<State>, manual: set<State>): (r: seq<State>)
    ensures forall x :: x in r <==> x in xs && x !in manual
    ensures |r| <= |xs|
    decreases |xs|
  {
    if xs == [] then []
    else (if xs[0] in manual then [] else [xs[0]]) + WithoutManual(xs[1..], manual)
  }

  /** Filtering distributes over concatenation: relative order is kept. */
  lemma {:induction false} WithoutManualAppend(xs: seq<State>, ys: seq<State>, manual: set<State>)
    ensures WithoutManual(xs + ys, manual) == WithoutManual(xs, manual) + WithoutManual(ys, manual)
    decreases |xs|
  {
    if xs == [] {
      assert xs + ys == ys;
    } else {
      assert (xs + ys)[0] == xs[0] && (xs + ys)[1..] == xs[1..] + ys;
      WithoutManualAppend(xs[1..], ys, manual);
    }
  }

  /** Nothing is removed from a list that holds no manual state. */
  lemma {:induction false} WithoutManualKeepsAll(xs: seq<State>, manual: set<State>)
    requires forall x :: x in xs ==> x !in manual
    ensures WithoutManual(xs, manual) == xs
    decreases |xs|
  {
    if xs != [] {
      WithoutManualKeepsAll(xs[1..], manual);
    }
  }

  /**
   * The first state kept by the filter is the first non-manual state of `xs`:
   * every state before it is manual. The filter keeps nothing exactly when
   * every state of `xs` is manual.
   */
  lemma {:induction false} WithoutManualFirst(xs: seq<State>, manual: set<State>)
    ensures WithoutManual(xs, manual) == [] <==> forall x :: x in xs ==> x in manual
    ensures WithoutManual(xs, manual) != [] ==>
              exists j :: 0 <= j < |xs| && xs[j] == WithoutManual(xs, manual)[0] && xs[j] !in manual &&
                          forall l :: 0 <= l < j ==> xs[l] in manual
    decreases |xs|
  {
    if xs != [] {
      WithoutManualFirst(xs[1..], manual);
      if xs[0] !in manual {
        assert WithoutManual(xs, manual)[0] == xs[0];
      } else if WithoutManual(xs, manual) != [] {
        var j :| 0 <= j < |xs[1..]| && xs[1..][j] == WithoutManual(xs[1..], manual)[0] && xs[1..][j] !in manual &&
                 forall l :: 0 <= l < j ==> xs[1..][l] in manual;
        assert xs[j + 1] == WithoutManual(xs, manual)[0];
        forall l | 0 <= l < j + 1 ensures xs[l] in manual {
          if l > 0 {
            assert xs[l] == xs[1..][l - 1];
          }
        }
      }
      assert forall x :: x in xs ==> x == xs[0] || x in xs[1..];
    }
  }
}
