/**
 * Transition keys: the string under which a guard is registered and later
 * looked up. A key is the template literal `${a}->${b}` of the two states.
 */
module TransitionKeys {

  /** A state value, in the string form that a transition key embeds. */
  type State = string

  /** A transition key. */
  type Key = string

  /** True when `s` holds the separator "->" starting at position `i`. */
  predicate ArrowAt(s: string, i: int) {
    0 <= i && i + 1 < |s| && s[i] == '-' && s[i + 1] == '>'
  }

  /** True when the separator occurs somewhere in `s`. */
  predicate HasArrow(s: string) {
    exists i | 0 <= i < |s| :: ArrowAt(s, i)
  }

  /** The key of the edge from `a` to `b`. */
  function AsTransition(a: State, b: State): (k: Key)
    ensures |k| == |a| + 2 + |b|
    ensures k[..|a|] == a && ArrowAt(k, |a|) && k[|a| + 2..] == b
  {
    a + "->" + b
  }

  /**
   * When the source state of either key holds no separator, the key determines
   * both states: distinct edges never share a key.
   */
  lemma AsTransitionInjective(a: State, b: State, c: State, d: State)
    requires !HasArrow(a) && !HasArrow(c)
    requires AsTransition(a, b) == AsTransition(c, d)
    ensures a == c && b == d
  {
    var k := AsTransition(a, b);
    if |a| < |c| {
      SeparatorOfShorter(a, b, c, d);
    } else if |c| < |a| {
      SeparatorOfShorter(c, d, a, b);
    }
    assert a == k[..|a|] == c;
    assert b == k[|a| + 2..] == d;
  }

  /** If two keys are equal, the separator of the shorter source state lies inside the longer one. */
  lemma SeparatorOfShorter(a: State, b: State, c: State, d: State)
    requires |a| < |c|
    requires AsTransition(a, b) == AsTransition(c, d)
    ensures HasArrow(c)
  {
    var k := AsTransition(a, b);
    assert k[|a| + 1] == '>';
    assert k[|c|] == '-';
    assert c[|a|] == k[|a|] && c[|a| + 1] == k[|a| + 1];
    assert ArrowAt(c, |a|);
  }

  /** The encoding is order-sensitive: the reverse edge has another key. */
  lemma AsTransitionOrderSensitive(a: State, b: State)
    requires !HasArrow(a) && !HasArrow(b) && a != b
    ensures AsTransition(a, b) != AsTransition(b, a)
  {
    if AsTransition(a, b) == AsTransition(b, a) {
      AsTransitionInjective(a, b, b, a);
    }
  }

  /** Without the separator restriction two distinct edges can share a key. */
  lemma AsTransitionCollides()
    ensures AsTransition("a->b", "c") == AsTransition("a", "b->c")
  {
  }
}
