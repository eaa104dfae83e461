/**
 * Decision-diagram nodes and the meaning of a diagram.
 *
 * A node is an immutable object: an identifier, a label (a variable name for
 * an internal node, "0" or "1" for a terminal) and two children, `left` for
 * the branch where the variable is false and `right` for the branch where it
 * is true. Terminals have no children. Node identity is object identity, as
 * in the implementation, where nodes are compared with `==` and define no
 * equality of their own.
 *
 * Everything defined on nodes here reads only constant fields, so it does not
 * depend on the state of the store that created them.
 */
module Diagram {

  class Node {
    const id: nat
    const variable: string
    const left: Node?   // False branch
    const right: Node?  // True branch

    constructor (identifier: nat, variable: string, leftChild: Node?, rightChild: Node?)
      ensures id == identifier && this.variable == variable
      ensures left == leftChild && right == rightChild
    {
      id := identifier;
      this.variable := variable;
      left := leftChild;
      right := rightChild;
    }

    /** A terminal node has neither child. */
    predicate IsLeaf() {
      left == null && right == null
    }
  }

  /** A total assignment of truth values to variable names. */
  type Assignment = string -> bool

  /** The hash-consing key of an internal node: its label and its children's identifiers. */
  function Key(n: Node): (string, nat, nat)
    requires n.left != null && n.right != null
  {
    (n.variable, n.left.id, n.right.id)
  }

  /**
   * A well-formed node is a terminal, or has both children and both were
   * created before it (smaller identifiers), recursively. Identifiers are
   * given out in increasing order, so every node a store creates is
   * well-formed; this is what makes the diagram acyclic.
   */
  ghost predicate Wf(n: Node)
    decreases n.id
  {
    n.IsLeaf() ||
    (n.left != null && n.right != null &&
     n.left.id < n.id && n.right.id < n.id &&
     Wf(n.left) && Wf(n.right))
  }

  /** Every node reachable from `n` along `left`/`right` links, `n` and the terminals included. */
  ghost function Reach(n: Node): set<Node>
    requires Wf(n)
    decreases n.id
  {
    if n.IsLeaf() then {n} else {n} + Reach(n.left) + Reach(n.right)
  }

  ghost function Ids(s: set<Node>): set<nat> {
    set m | m in s :: m.id
  }

  lemma IdsAdd(s: set<Node>, n: Node)
    ensures Ids(s + {n}) == Ids(s) + {n.id}
  {
    assert n in s + {n};
  }

  /** No two different nodes of `s` share an identifier. */
  ghost predicate UniqueIds(s: set<Node>) {
    forall m1, m2 :: m1 in s && m2 in s && m1.id == m2.id ==> m1 == m2
  }

  /** The identifiers of the nodes reachable from `n`. */
  ghost function ReachIds(n: Node): set<nat>
    requires Wf(n)
  {
    Ids(Reach(n))
  }

  /** The internal (non-terminal) nodes reachable from `n`. */
  ghost function InnerReach(n: Node): set<Node>
    requires Wf(n)
  {
    set m | m in Reach(n) && !m.IsLeaf()
  }

  /**
   * Evaluation of a diagram: starting at `n`, take `right` at every internal
   * node whose variable `a` makes true and `left` at every one it makes
   * false. The walk ends at a terminal reachable from `n`.
   */
  ghost function Follow(n: Node, a: Assignment): (t: Node)
    requires Wf(n)
    ensures t.IsLeaf() && t in Reach(n)
    decreases n.id
  {
    if n.IsLeaf() then n else Follow(if a(n.variable) then n.right else n.left, a)
  }

  /**
   * Being a leaf is being an outcome: a well-formed node is a leaf exactly
   * when evaluating it under every assignment stops at the node itself.
   */
  lemma LeafIsOutcome(n: Node)
    requires Wf(n)
    ensures n.IsLeaf() <==> forall a :: Follow(n, a) == n
  {
    if n.IsLeaf() {
      forall a ensures Follow(n, a) == n { }
    } else {
      var a: Assignment := (v: string) => false;
      assert Follow(n, a).IsLeaf() && Follow(n, a) != n;
      assert !(forall a' :: Follow(n, a') == n);
    }
  }

  /**
   * The unique-table key of a node fixes its meaning: two internal nodes of
   * one diagram (no identifier shared by two reachable nodes) with the same
   * (variable, left id, right id) triple have the same children and
   * evaluate alike under every assignment.
   */
  lemma KeyDeterminesMeaning(n: Node, m: Node)
    requires Wf(n) && Wf(m) && !n.IsLeaf() && !m.IsLeaf()
    requires UniqueIds(Reach(n) + Reach(m)) && Key(n) == Key(m)
    ensures n.left == m.left && n.right == m.right
    ensures forall a :: Follow(n, a) == Follow(m, a)
  {
    assert n.left in Reach(n) && m.left in Reach(m);
    assert n.right in Reach(n) && m.right in Reach(m);
  }

  /** `a` with variable `v` set to `b`. */
  function Override(a: Assignment, v: string, b: bool): Assignment {
    x => if x == v then b else a(x)
  }

  /** No variable occurs twice in `order`. */
  ghost predicate Distinct(order: seq<string>) {
    forall i, j :: 0 <= i < j < |order| ==> order[i] != order[j]
  }

  /**
   * `n` respects the variable order from position `d` on: it is a terminal,
   * or it is labelled `order[k]` for some `k >= d` and both its children
   * respect the order from position `k + 1` on. Along every path the
   * positions of the labels therefore strictly increase.
   */
  ghost predicate OrderedFrom(n: Node, order: seq<string>, d: nat)
    requires Wf(n)
    decreases n.id
  {
    n.IsLeaf() ||
    exists k :: d <= k < |order| && n.variable == order[k] &&
                OrderedFrom(n.left, order, k + 1) && OrderedFrom(n.right, order, k + 1)
  }

  /** A position of the label of an internal node that respects the order from `d` on. */
  ghost function Position(n: Node, order: seq<string>, d: nat): (k: nat)
    requires Wf(n) && !n.IsLeaf() && OrderedFrom(n, order, d)
    ensures d <= k < |order| && n.variable == order[k]
    ensures OrderedFrom(n.left, order, k + 1) && OrderedFrom(n.right, order, k + 1)
  {
    var k :| d <= k < |order| && n.variable == order[k] &&
             OrderedFrom(n.left, order, k + 1) && OrderedFrom(n.right, order, k + 1);
    k
  }

  /**
   * The assignment handed to the oracle at the bottom of the recursion:
   * `values`, extended one variable at a time along `vars` with the value `a`
   * gives it, the way each level of the construction copies its assignment
   * and binds its own variable.
   */
  function Extend(values: map<string, bool>, vars: seq<string>, a: Assignment): (m: map<string, bool>)
    ensures forall v :: v in m <==> v in values || v in vars
    ensures forall v :: v in vars ==> m[v] == a(v)
    ensures forall v :: v in values && v !in vars ==> m[v] == values[v]
    decreases |vars|
  {
    if vars == [] then values else Extend(values[vars[0] := a(vars[0])], vars[1..], a)
  }

  /** `c` is a child of `m`. */
  ghost predicate IsChild(m: Node, c: Node) {
    c == m.left || c == m.right
  }

  /** Reachability is closed: a node reachable from `n` is well-formed and its children are reachable too. */
  lemma {:induction false} ReachChild(n: Node, m: Node)
    requires Wf(n) && m in Reach(n)
    ensures Wf(m)
    ensures m.left != null ==> m.left in Reach(n)
    ensures m.right != null ==> m.right in Reach(n)
    decreases n.id
  {
    if m != n {
      if m in Reach(n.left) {
        ReachChild(n.left, m);
      } else {
        ReachChild(n.right, m);
      }
    }
  }

  /** A set that holds `n` and is closed under taking children holds everything reachable from `n`. */
  lemma {:induction false} ClosedContainsReach(s: set<Node>, n: Node)
    requires Wf(n) && n in s
    requires forall m, c :: m in s && IsChild(m, c) ==> c in s
    ensures Reach(n) <= s
    decreases n.id
  {
    if !n.IsLeaf() {
      assert IsChild(n, n.left) && IsChild(n, n.right);
      ClosedContainsReach(s, n.left);
      ClosedContainsReach(s, n.right);
    }
  }

  /**
   * A set of internal nodes that holds `n` (unless `n` is a terminal) and
   * holds every internal child of its members holds every internal node
   * reachable from `n`.
   */
  lemma {:induction false} ClosedContainsInner(s: set<Node>, n: Node)
    requires Wf(n) && (n.IsLeaf() || n in s)
    requires forall m :: m in s ==> !m.IsLeaf()
    requires forall m, c :: m in s && IsChild(m, c) ==> c.IsLeaf() || c in s
    ensures InnerReach(n) <= s
    decreases n.id
  {
    if !n.IsLeaf() {
      assert IsChild(n, n.left) && IsChild(n, n.right);
      ClosedContainsInner(s, n.left);
      ClosedContainsInner(s, n.right);
    }
  }

  /** Respecting the order from a position implies respecting it from any earlier position. */
  lemma OrderedWeaken(n: Node, order: seq<string>, d: nat, d': nat)
    requires Wf(n) && OrderedFrom(n, order, d) && d' <= d
    ensures OrderedFrom(n, order, d')
  {
    if !n.IsLeaf() {
      var k :| d <= k < |order| && n.variable == order[k] &&
               OrderedFrom(n.left, order, k + 1) && OrderedFrom(n.right, order, k + 1);
      assert d' <= k;
    }
  }

  /**
   * With distinct variables, a diagram that respects the order from position
   * `d` on does not depend on any variable at an earlier position.
   */
  lemma {:induction false} FollowIgnoresEarlier(n: Node, order: seq<string>, d: nat, j: nat, a: Assignment, b: bool)
    requires Wf(n) && Distinct(order) && OrderedFrom(n, order, d) && j < d && j < |order|
    ensures Follow(n, Override(a, order[j], b)) == Follow(n, a)
    decreases n.id
  {
    if !n.IsLeaf() {
      var k :| d <= k < |order| && n.variable == order[k] &&
               OrderedFrom(n.left, order, k + 1) && OrderedFrom(n.right, order, k + 1);
      assert order[j] != order[k];
      assert Override(a, order[j], b)(n.variable) == a(n.variable);
      FollowIgnoresEarlier(n.left, order, k + 1, j, a, b);
      FollowIgnoresEarlier(n.right, order, k + 1, j, a, b);
    }
  }

  /**
   * Shannon decomposition read off a node: fixing the node's own variable to
   * false makes it behave as its `left` child, fixing it to true as its
   * `right` child.
   */
  lemma FollowBranches(n: Node, order: seq<string>, k: nat, a: Assignment)
    requires Wf(n) && !n.IsLeaf() && Distinct(order) && k < |order| && n.variable == order[k]
    requires OrderedFrom(n.left, order, k + 1) && OrderedFrom(n.right, order, k + 1)
    ensures Follow(n, Override(a, order[k], false)) == Follow(n.left, a)
    ensures Follow(n, Override(a, order[k], true)) == Follow(n.right, a)
  {
    FollowIgnoresEarlier(n.left, order, k + 1, k, a, false);
    FollowIgnoresEarlier(n.right, order, k + 1, k, a, true);
  }

  /**
   * Positions strictly increase along edges: when `n` respects the order and
   * is labelled `order[i]`, each internal child is labelled `order[j]` for
   * some `j > i` (spelled for distinct variables, so that positions are
   * determined by labels).
   */
  lemma ChildrenLater(n: Node, order: seq<string>, d: nat, i: nat)
    requires Wf(n) && Distinct(order) && OrderedFrom(n, order, d) && !n.IsLeaf()
    requires i < |order| && n.variable == order[i]
    ensures d <= i
    ensures !n.left.IsLeaf() ==> exists j :: i < j < |order| && n.left.variable == order[j]
    ensures !n.right.IsLeaf() ==> exists j :: i < j < |order| && n.right.variable == order[j]
  {
    var k :| d <= k < |order| && n.variable == order[k] &&
             OrderedFrom(n.left, order, k + 1) && OrderedFrom(n.right, order, k + 1);
    assert k == i;
  }
}
