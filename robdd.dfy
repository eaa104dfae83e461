/**
 * The ROBDD node store and the diagram builder.
 *
 * A store owns the two terminals (identifier 0 labelled "0", identifier 1
 * labelled "1") and every internal node it creates. Internal nodes are made
 * only through `CreateOrFindNode`, which applies the two reduction rules: a
 * node whose children are the same node is not created (the child is
 * returned), and a (variable, left id, right id) triple already in the
 * unique table returns the node stored there. `ConstructBdd` builds the
 * diagram of a Boolean function by Shannon decomposition over a fixed
 * variable order, asking the oracle once per full assignment.
 */
module Bdd {
  import opened Diagram
  import opened Dot

  datatype Option<T> = None | Some(value: T)

  /** The Boolean function being represented, given a (total) variable assignment. */
  type Oracle = map<string, bool> -> bool

  /** `n` is the node numbered `n.id` among `byId`, the nodes of a store in order of creation. */
  ghost predicate Owned(byId: seq<Node>, n: Node) {
    n.id < |byId| && byId[n.id] == n
  }

  /**
   * `n` is a proper internal node of a store: two children of the store,
   * different from each other, and the entry of the unique table under its
   * own triple.
   */
  ghost predicate Entry(cache: map<(string, nat, nat), Node>, byId: seq<Node>, n: Node) {
    n.left != null && n.right != null && n.left != n.right &&
    Owned(byId, n.left) && Owned(byId, n.right) &&
    Key(n) in cache && cache[Key(n)] == n
  }

  /**
   * The store invariant on the store's values. The terminals are the nodes 0
   * and 1; node `i` has identifier `i` and is well-formed; the internal nodes
   * (identifiers 2 and up) are exactly the entries of the unique table, each
   * under its own triple.
   */
  ghost predicate StoreOk(cache: map<(string, nat, nat), Node>, byId: seq<Node>, f: Node, t: Node) {
    f.id == 0 && f.variable == "0" && f.IsLeaf() &&
    t.id == 1 && t.variable == "1" && t.IsLeaf() &&
    2 <= |byId| && byId[0] == f && byId[1] == t &&
    (forall i :: 0 <= i < |byId| ==> byId[i].id == i && Wf(byId[i])) &&
    (forall i :: 2 <= i < |byId| ==> Entry(cache, byId, byId[i])) &&
    (forall k :: k in cache ==> 2 <= cache[k].id && Owned(byId, cache[k]) &&
                                cache[k].left != null && cache[k].right != null && Key(cache[k]) == k)
  }

  /** Nodes of a store stay nodes of it as the store grows. */
  lemma OwnedGrow(byId: seq<Node>, byId': seq<Node>)
    requires byId <= byId'
    ensures forall m :: Owned(byId, m) ==> Owned(byId', m)
  {
    forall m | Owned(byId, m) ensures Owned(byId', m) {
      assert byId'[m.id] == byId[m.id];
    }
  }

  /** Entering a node with a new triple and the next identifier keeps the store invariant. */
  lemma InsertOk(cache: map<(string, nat, nat), Node>, byId: seq<Node>, f: Node, t: Node, n: Node)
    requires StoreOk(cache, byId, f, t)
    requires n.id == |byId| && n.left != null && n.right != null && n.left != n.right
    requires Owned(byId, n.left) && Owned(byId, n.right) && Key(n) !in cache
    ensures StoreOk(cache[Key(n) := n], byId + [n], f, t)
  {
    var cache', byId' := cache[Key(n) := n], byId + [n];
    OwnedGrow(byId, byId');
    assert Wf(byId[n.left.id]) && Wf(byId[n.right.id]);
    assert Wf(n);
    forall i | 0 <= i < |byId'| ensures byId'[i].id == i && Wf(byId'[i]) {
      if i < |byId| { assert byId'[i] == byId[i]; }
    }
    forall i | 2 <= i < |byId'| ensures Entry(cache', byId', byId'[i]) {
      if i < |byId| {
        assert byId'[i] == byId[i];
        assert Entry(cache, byId, byId[i]);
      }
    }
    forall k | k in cache'
      ensures 2 <= cache'[k].id && Owned(byId', cache'[k]) &&
              cache'[k].left != null && cache'[k].right != null && Key(cache'[k]) == k
    {
      if k != Key(n) {
        assert cache'[k] == cache[k];
      }
    }
  }

  /**
   * One step of Shannon decomposition is sound: if the False branch `lo`
   * represents the function with `v` false and the True branch `hi` the
   * function with `v` true, the node `CreateOrFindNode` returns for them
   * represents the function itself.
   */
  lemma JoinSemantics(r: Node, lo: Node, hi: Node, formula: Oracle, values: map<string, bool>,
                      order: seq<string>, d: nat, f: Node, t: Node)
    requires Wf(r) && Wf(lo) && Wf(hi) && d < |order|
    requires (lo == hi && r == lo) || (lo != hi && !r.IsLeaf() && r.variable == order[d] && r.left == lo && r.right == hi)
    requires forall a :: Follow(lo, a) == (if formula(Extend(values[order[d] := false], order[d + 1..], a)) then t else f)
    requires forall a :: Follow(hi, a) == (if formula(Extend(values[order[d] := true], order[d + 1..], a)) then t else f)
    ensures forall a :: Follow(r, a) == (if formula(Extend(values, order[d..], a)) then t else f)
  {
    var v, rest := order[d], order[d + 1..];
    assert order[d..] == [v] + rest;
    forall a ensures Follow(r, a) == (if formula(Extend(values, [v] + rest, a)) then t else f) {
      assert ([v] + rest)[0] == v && ([v] + rest)[1..] == rest;
      assert Extend(values, [v] + rest, a) == Extend(values[v := a(v)], rest, a);
    }
  }

  /** The node joining two branches ordered from position `d + 1` is ordered from `d`. */
  lemma JoinOrdered(r: Node, lo: Node, hi: Node, order: seq<string>, d: nat)
    requires Wf(r) && Wf(lo) && Wf(hi) && d < |order|
    requires (lo == hi && r == lo) || (lo != hi && !r.IsLeaf() && r.variable == order[d] && r.left == lo && r.right == hi)
    requires OrderedFrom(lo, order, d + 1) && OrderedFrom(hi, order, d + 1)
    ensures OrderedFrom(r, order, d)
  {
    if lo == hi {
      OrderedWeaken(r, order, d + 1, d);
    }
  }

  /** As a store grows, every entry of its unique table stays in place. */
  lemma CacheGrows(cache: map<(string, nat, nat), Node>, byId: seq<Node>,
                   cache': map<(string, nat, nat), Node>, byId': seq<Node>, f: Node, t: Node)
    requires StoreOk(cache, byId, f, t) && StoreOk(cache', byId', f, t) && byId <= byId'
    ensures forall k :: k in cache ==> k in cache' && cache'[k] == cache[k]
  {
    forall k | k in cache ensures k in cache' && cache'[k] == cache[k] {
      var n := cache[k];
      assert byId'[n.id] == byId[n.id];
      assert Entry(cache', byId', byId'[n.id]);
    }
  }

  /** Every node `byId'` lists past the prefix `byId` is reachable from `r`. */
  ghost predicate AddedBelow(byId: seq<Node>, byId': seq<Node>, r: Node)
    requires Wf(r)
  {
    forall i :: |byId| <= i < |byId'| ==> byId'[i] in Reach(r)
  }

  /**
   * A build of the False branch, then of the True branch, then their join
   * adds to the store only nodes reachable from the joined node, when each
   * stage adds only nodes reachable from its own result.
   */
  lemma NewNodesReached(b0: seq<Node>, b1: seq<Node>, b2: seq<Node>, b3: seq<Node>, lo: Node, hi: Node, r: Node)
    requires Wf(lo) && Wf(hi) && Wf(r) && b0 <= b1 <= b2 <= b3
    requires AddedBelow(b0, b1, lo) && AddedBelow(b1, b2, hi) && AddedBelow(b2, b3, r)
    requires Reach(lo) + Reach(hi) <= Reach(r)
    ensures AddedBelow(b0, b3, r)
  {
    forall i | |b0| <= i < |b3| ensures b3[i] in Reach(r) {
      if i < |b1| {
        assert b3[i] == b1[i];
      } else if i < |b2| {
        assert b3[i] == b2[i];
      }
    }
  }

  /** A node is counted, or still pending. */
  ghost predicate Reached(c: Node?, seen: set<Node>, pending: seq<Node>) {
    c == null || c in seen || c in pending
  }

  /**
   * What the count traversal keeps true: `seen`, the nodes counted so far,
   * are reachable and their identifiers are `counted`; everything pending
   * is reachable; the start and the children of every node seen are seen
   * or pending.
   */
  ghost predicate Counting(start: Node, counted: set<nat>, pending: seq<Node>, seen: set<Node>)
    requires Wf(start)
  {
    seen <= Reach(start) &&
    counted == Ids(seen) &&
    (forall m :: m in pending ==> m in Reach(start)) &&
    Reached(start, seen, pending) &&
    (forall m :: m in seen ==> Reached(m.left, seen, pending) && Reached(m.right, seen, pending))
  }

  /** Popping a node whose identifier is already counted keeps the invariant. */
  lemma CountSkip(start: Node, counted: set<nat>, pending: seq<Node>, seen: set<Node>, current: Node)
    requires Wf(start) && UniqueIds(Reach(start)) && Counting(start, counted, pending + [current], seen)
    requires current.id in counted
    ensures Counting(start, counted, pending, seen)
  {
    var before := pending + [current];
    assert current in before;
    var m :| m in seen && m.id == current.id;
    assert m == current;
    forall m | m in pending ensures m in Reach(start) {
      assert m in before;
    }
    assert Reached(start, seen, before);
    forall m | m in seen ensures Reached(m.left, seen, pending) && Reached(m.right, seen, pending) {
      assert Reached(m.left, seen, before) && Reached(m.right, seen, before);
    }
  }

  /** Counting a popped node with a new identifier and pushing its children keeps the invariant. */
  lemma CountAdd(start: Node, counted: set<nat>, pending: seq<Node>, seen: set<Node>, current: Node, pushed: seq<Node>)
    requires Wf(start) && UniqueIds(Reach(start)) && Counting(start, counted, pending + [current], seen)
    requires current.id !in counted
    requires forall c :: c in pushed <==> c == current.left || c == current.right
    ensures current !in seen && current in Reach(start)
    ensures Counting(start, counted + {current.id}, pending + pushed, seen + {current})
  {
    var before := pending + [current];
    assert current in before;
    ReachChild(start, current);
    IdsAdd(seen, current);
    var seen', pending' := seen + {current}, pending + pushed;
    forall m | m in pending' ensures m in Reach(start) {
      if m in pending {
        assert m in before;
      }
    }
    assert Reached(start, seen, before);
    forall m | m in seen' ensures Reached(m.left, seen', pending') && Reached(m.right, seen', pending') {
      if m != current {
        assert Reached(m.left, seen, before) && Reached(m.right, seen, before);
      }
    }
  }

  /** With nothing pending, everything reachable from `start` has been counted. */
  lemma CountDone(start: Node, counted: set<nat>, seen: set<Node>)
    requires Wf(start) && Counting(start, counted, [], seen)
    ensures counted == ReachIds(start)
  {
    forall m, c | m in seen && IsChild(m, c) ensures c in seen {
      assert Reached(m.left, seen, []) && Reached(m.right, seen, []);
    }
    assert Reached(start, seen, []);
    ClosedContainsReach(seen, start);
  }

  /**
   * Counting a popped node whose identifier is new: its identifier is
   * added to the counted set and its False child, then its True child, are
   * pushed when present. One more reachable node is then counted.
   */
  method Admit(start: Node, counted: set<nat>, rest: seq<Node>, ghost seen: set<Node>, current: Node)
    returns (counted': set<nat>, pending': seq<Node>, ghost seen': set<Node>)
    requires Wf(start) && UniqueIds(Reach(start)) && Counting(start, counted, rest + [current], seen)
    requires current.id !in counted
    ensures counted' == counted + {current.id} && seen' == seen + {current}
    ensures pending' == rest + (if current.left != null then [current.left] else []) +
                               (if current.right != null then [current.right] else [])
    ensures Counting(start, counted', pending', seen')
    ensures |Reach(start) - seen'| < |Reach(start) - seen|
  {
    var pushed: seq<Node> := [];
    if current.left != null {
      pushed := pushed + [current.left];
    }
    if current.right != null {
      pushed := pushed + [current.right];
    }
    CountAdd(start, counted, rest, seen, current, pushed);
    assert Reach(start) - (seen + {current}) < Reach(start) - seen;
    counted' := counted + {current.id};
    seen' := seen + {current};
    pending' := rest + pushed;
  }

  /**
   * One round of the `node_count` loop: pop the last pending node; skip it
   * if its identifier is already counted, otherwise `Admit` it. Either the nodes counted stay the same and
   * fewer are pending, or one more reachable node is counted.
   */
  method CountStep(start: Node, counted: set<nat>, pending: seq<Node>, ghost seen: set<Node>)
    returns (counted': set<nat>, pending': seq<Node>, ghost seen': set<Node>)
    requires Wf(start) && UniqueIds(Reach(start)) && |pending| > 0
    requires Counting(start, counted, pending, seen)
    ensures var current, rest := pending[|pending| - 1], pending[..|pending| - 1];
            if current.id in counted then
              counted' == counted && pending' == rest
            else
              counted' == counted + {current.id} &&
              pending' == rest + (if current.left != null then [current.left] else []) +
                                 (if current.right != null then [current.right] else [])
    ensures Counting(start, counted', pending', seen')
    ensures (seen' == seen && |pending'| < |pending|) || |Reach(start) - seen'| < |Reach(start) - seen|
  {
    var current := pending[|pending| - 1];
    var rest := pending[..|pending| - 1];
    assert pending == rest + [current];
    if current.id in counted {
      CountSkip(start, counted, rest, seen, current);
      return counted, rest, seen;
    }
    counted', pending', seen' := Admit(start, counted, rest, seen, current);
  }

  /**
   * The worklist traversal of `node_count` from `start`: one `CountStep`
   * round while nodes are pending. The result is the number of distinct
   * identifiers reachable from `start`.
   */
  method CountReachable(start: Node) returns (count: nat)
    requires Wf(start) && UniqueIds(Reach(start))
    ensures count == |ReachIds(start)|
  {
    var counted: set<nat> := {};
    var pending: seq<Node> := [start];
    ghost var seen: set<Node> := {};
    ghost var reach := Reach(start);

    while |pending| > 0
      invariant Counting(start, counted, pending, seen)
      decreases |reach - seen|, |pending|
    {
      counted, pending, seen := CountStep(start, counted, pending, seen);
    }
    CountDone(start, counted, seen);
    count := |counted|;
  }

  class Robdd {
    /** The unique table: (variable, left id, right id) to the node with that triple. */
    var nodeCache: map<(string, nat, nat), Node>
    var nextId: nat
    const falseNode: Node
    const trueNode: Node
    var root: Node?
    /** Every node of the store, in order of creation; `byId[i]` has identifier `i`. */
    ghost var byId: seq<Node>

    /** `n` is a node of this store (and not a stranger with a clashing identifier). */
    ghost predicate Owns(n: Node)
      reads this`byId
    {
      Owned(byId, n)
    }

    /**
     * The store invariant: `StoreOk`, and the identifiers handed out so far
     * are exactly 0 .. nextId - 1.
     */
    ghost predicate StoreValid()
      reads this`nodeCache, this`nextId, this`byId
    {
      StoreOk(nodeCache, byId, falseNode, trueNode) && |byId| == nextId
    }

    /** The store invariant, and the root, if any, is a node of the store. */
    ghost predicate Valid()
      reads this
    {
      StoreValid() && (root == null || Owns(root))
    }

    /** A fresh store: the two terminals, an empty unique table, identifiers from 2 on, no root. */
    constructor ()
      ensures Valid() && fresh(falseNode) && fresh(trueNode)
      ensures nodeCache == map[] && nextId == 2 && root == null
      ensures byId == [falseNode, trueNode]
    {
      nodeCache := map[];
      nextId := 2;
      falseNode := new Node(0, "0", null, null);
      trueNode := new Node(1, "1", null, null);
      root := null;
      byId := [falseNode, trueNode];
    }

    /** A node of the store is a terminal exactly when it is node 0 or node 1. */
    lemma LeafIffTerminal(n: Node)
      requires Valid() && Owns(n)
      ensures n.IsLeaf() <==> n.id < 2
      ensures n.IsLeaf() <==> (n == falseNode || n == trueNode)
    {
      if 2 <= n.id {
        assert Entry(nodeCache, byId, byId[n.id]);
      }
    }

    /** The children of a node of the store are nodes of the store. */
    lemma OwnedChildren(n: Node)
      requires Valid() && Owns(n) && !n.IsLeaf()
      ensures n.left != null && n.right != null && Owns(n.left) && Owns(n.right)
      ensures n.left != n.right
    {
      LeafIffTerminal(n);
      assert Entry(nodeCache, byId, byId[n.id]);
    }

    /** Everything reachable from a node of the store belongs to the store. */
    lemma {:induction false} OwnedReach(n: Node)
      requires Valid() && Owns(n)
      ensures Wf(n) && forall m :: m in Reach(n) ==> Owns(m)
      decreases n.id
    {
      assert Wf(byId[n.id]);
      if !n.IsLeaf() {
        OwnedChildren(n);
        OwnedReach(n.left);
        OwnedReach(n.right);
      }
    }

    /** Nodes reachable from a node of the store have distinct identifiers (identity is identifier). */
    lemma ReachUniqueIds(n: Node)
      requires Valid() && Owns(n)
      ensures Wf(n) && UniqueIds(Reach(n))
    {
      OwnedReach(n);
    }

    /** Every table entry is a node of the store with an identifier in 2 .. nextId - 1, filed under its own triple. */
    lemma CacheEntries(k: (string, nat, nat))
      requires Valid() && k in nodeCache
      ensures Owns(nodeCache[k]) && 2 <= nodeCache[k].id < nextId
      ensures !nodeCache[k].IsLeaf() && Key(nodeCache[k]) == k
    {
    }

    /** Distinct keys of the unique table name distinct nodes, so distinct identifiers. */
    lemma CacheInjective(k1: (string, nat, nat), k2: (string, nat, nat))
      requires Valid() && k1 in nodeCache && k2 in nodeCache && k1 != k2
      ensures nodeCache[k1] != nodeCache[k2] && nodeCache[k1].id != nodeCache[k2].id
    {
    }

    /** No table entry is a redundant test: its two children differ. */
    lemma CacheReduced(k: (string, nat, nat))
      requires Valid() && k in nodeCache
      ensures k.1 != k.2
      ensures nodeCache[k].left != nodeCache[k].right
    {
      var n := nodeCache[k];
      assert Entry(nodeCache, byId, byId[n.id]);
    }

    /** Identifiers 2 .. nextId - 1 are all in use: each is the identifier of some table entry. */
    lemma IdsDense(i: nat)
      requires Valid() && 2 <= i < nextId
      ensures exists k :: k in nodeCache && nodeCache[k].id == i
    {
      assert Entry(nodeCache, byId, byId[i]);
      var k := Key(byId[i]);
      assert k in nodeCache && nodeCache[k].id == i;
    }

    /**
     * No node of the store tests a variable it does not depend on: for an
     * internal node labelled `order[k]` some assignment makes its outcome
     * change when only that variable is flipped.
     */
    lemma {:induction false} DependsOnLabel(n: Node, order: seq<string>, k: nat)
      requires Valid() && Owns(n) && Wf(n) && !n.IsLeaf() && Distinct(order)
      requires k < |order| && n.variable == order[k]
      requires OrderedFrom(n.left, order, k + 1) && OrderedFrom(n.right, order, k + 1)
      ensures exists a :: Follow(n, Override(a, order[k], false)) != Follow(n, Override(a, order[k], true))
      decreases n.id, 0
    {
      OwnedChildren(n);
      if forall a :: Follow(n.left, a) == Follow(n.right, a) {
        Canonical(n.left, n.right, order, k + 1);
        assert false;
      }
      var a :| Follow(n.left, a) != Follow(n.right, a);
      FollowBranches(n, order, k, a);
    }

    /**
     * A node testing `order[k]` and a node that respects the order only
     * after position `k` never represent the same function.
     */
    lemma {:induction false} EarlierLabelDiffers(n: Node, c: Node, order: seq<string>, k: nat)
      requires Valid() && Owns(n) && Owns(c) && Wf(n) && Wf(c) && !n.IsLeaf() && Distinct(order)
      requires k < |order| && n.variable == order[k]
      requires OrderedFrom(n.left, order, k + 1) && OrderedFrom(n.right, order, k + 1)
      requires OrderedFrom(c, order, k + 1)
      ensures exists a :: Follow(n, a) != Follow(c, a)
      decreases n.id, 1
    {
      DependsOnLabel(n, order, k);
      var a :| Follow(n, Override(a, order[k], false)) != Follow(n, Override(a, order[k], true));
      FollowIgnoresEarlier(c, order, k + 1, k, a, false);
      FollowIgnoresEarlier(c, order, k + 1, k, a, true);
      if Follow(n, Override(a, order[k], false)) == Follow(c, Override(a, order[k], false)) {
        assert Follow(n, Override(a, order[k], true)) != Follow(c, Override(a, order[k], true));
      }
    }

    /**
     * Canonicity: two nodes of the store that respect the same order of
     * distinct variables and represent the same function are the same node.
     */
    lemma {:induction false} Canonical(n1: Node, n2: Node, order: seq<string>, d: nat)
      requires Valid() && Owns(n1) && Owns(n2) && Wf(n1) && Wf(n2) && Distinct(order)
      requires OrderedFrom(n1, order, d) && OrderedFrom(n2, order, d)
      requires forall a :: Follow(n1, a) == Follow(n2, a)
      ensures n1 == n2
      decreases if n1.id < n2.id then n2.id else n1.id, 3
    {
      if n1.IsLeaf() && n2.IsLeaf() {
        var a: Assignment := _ => false;
        assert Follow(n1, a) == Follow(n2, a);
      } else if n1.IsLeaf() {
        EarlierLabelDiffers(n2, n1, order, Position(n2, order, d));
        assert false;
      } else if n2.IsLeaf() {
        EarlierLabelDiffers(n1, n2, order, Position(n1, order, d));
        assert false;
      } else {
        InnerCanonical(n1, n2, order, d);
      }
    }

    /** The case of `Canonical` where both nodes are internal. */
    lemma {:induction false} InnerCanonical(n1: Node, n2: Node, order: seq<string>, d: nat)
      requires Valid() && Owns(n1) && Owns(n2) && Wf(n1) && Wf(n2) && Distinct(order)
      requires !n1.IsLeaf() && !n2.IsLeaf() && OrderedFrom(n1, order, d) && OrderedFrom(n2, order, d)
      requires forall a :: Follow(n1, a) == Follow(n2, a)
      ensures n1 == n2
      decreases if n1.id < n2.id then n2.id else n1.id, 2
    {
      var k1, k2 := Position(n1, order, d), Position(n2, order, d);
      if k1 < k2 {
        assert OrderedFrom(n2, order, k1 + 1);
        EarlierLabelDiffers(n1, n2, order, k1);
        assert false;
      } else if k2 < k1 {
        assert OrderedFrom(n1, order, k2 + 1);
        EarlierLabelDiffers(n2, n1, order, k2);
        assert false;
      } else {
        SameLabel(n1, n2, order, k1);
      }
    }

    /** The case of `Canonical` where both nodes test the same variable. */
    lemma {:induction false} SameLabel(n1: Node, n2: Node, order: seq<string>, k: nat)
      requires Valid() && Owns(n1) && Owns(n2) && Wf(n1) && Wf(n2) && Distinct(order)
      requires !n1.IsLeaf() && !n2.IsLeaf() && k < |order| && n1.variable == order[k] && n2.variable == order[k]
      requires OrderedFrom(n1.left, order, k + 1) && OrderedFrom(n1.right, order, k + 1)
      requires OrderedFrom(n2.left, order, k + 1) && OrderedFrom(n2.right, order, k + 1)
      requires forall a :: Follow(n1, a) == Follow(n2, a)
      ensures n1 == n2
      decreases if n1.id < n2.id then n2.id else n1.id, 1
    {
      OwnedChildren(n1);
      OwnedChildren(n2);
      forall a ensures Follow(n1.left, a) == Follow(n2.left, a) && Follow(n1.right, a) == Follow(n2.right, a) {
        FollowBranches(n1, order, k, a);
        FollowBranches(n2, order, k, a);
      }
      Canonical(n1.left, n2.left, order, k + 1);
      Canonical(n1.right, n2.right, order, k + 1);
      assert Entry(nodeCache, byId, byId[n1.id]);
      assert Entry(nodeCache, byId, byId[n2.id]);
    }

    /**
     * The reduction rules. The same node on both sides is returned as is; a
     * triple already in the table returns its entry; otherwise a node with
     * the next identifier is created and entered under its triple. Nothing
     * else changes.
     */
    method CreateOrFindNode(variable: string, leftChild: Node, rightChild: Node) returns (r: Node)
      requires Valid() && Owns(leftChild) && Owns(rightChild)
      modifies this
      ensures Valid() && Owns(r) && old(byId) <= byId && root == old(root)
      ensures leftChild == rightChild ==> r == leftChild && unchanged(this)
      ensures leftChild != rightChild ==> !r.IsLeaf() && r.variable == variable && r.left == leftChild && r.right == rightChild
      ensures leftChild != rightChild && (variable, leftChild.id, rightChild.id) in old(nodeCache) ==>
                r == old(nodeCache)[(variable, leftChild.id, rightChild.id)] && unchanged(this)
      ensures leftChild != rightChild && (variable, leftChild.id, rightChild.id) !in old(nodeCache) ==>
                fresh(r) && r.id == old(nextId) && nextId == old(nextId) + 1 &&
                nodeCache == old(nodeCache)[(variable, leftChild.id, rightChild.id) := r] &&
                byId == old(byId) + [r]
    {
      if leftChild == rightChild {
        return leftChild;
      }
      var lookupKey := (variable, leftChild.id, rightChild.id);
      if lookupKey in nodeCache {
        r := nodeCache[lookupKey];
        assert Entry(nodeCache, byId, byId[r.id]);
        return;
      }
      r := new Node(nextId, variable, leftChild, rightChild);
      InsertOk(nodeCache, byId, falseNode, trueNode, r);
      OwnedGrow(byId, byId + [r]);
      nodeCache := nodeCache[lookupKey := r];
      nextId := nextId + 1;
      byId := byId + [r];
    }

    /**
     * The last step of one level of `ConstructBdd`: the node for the two
     * branches `lo` (variable `varOrder[depth]` false) and `hi` (true), made
     * by `CreateOrFindNode`, represents the function at this level and
     * respects the order from `depth` on.
     */
    method JoinBranches(formula: Oracle, varOrder: seq<string>, depth: nat, varValues: map<string, bool>,
                        lo: Node, hi: Node) returns (r: Node)
      requires Valid() && depth < |varOrder| && Owns(lo) && Owns(hi) && Wf(lo) && Wf(hi)
      requires forall a :: Follow(lo, a) == (if formula(Extend(varValues[varOrder[depth] := false], varOrder[depth + 1..], a)) then trueNode else falseNode)
      requires forall a :: Follow(hi, a) == (if formula(Extend(varValues[varOrder[depth] := true], varOrder[depth + 1..], a)) then trueNode else falseNode)
      requires OrderedFrom(lo, varOrder, depth + 1) && OrderedFrom(hi, varOrder, depth + 1)
      modifies this
      ensures Valid() && Owns(r) && Wf(r) && old(byId) <= byId && root == old(root)
      ensures forall k :: k in old(nodeCache) ==> k in nodeCache && nodeCache[k] == old(nodeCache)[k]
      ensures forall a :: Follow(r, a) == (if formula(Extend(varValues, varOrder[depth..], a)) then trueNode else falseNode)
      ensures OrderedFrom(r, varOrder, depth)
      ensures byId == old(byId) || byId == old(byId) + [r]
      ensures Reach(lo) + Reach(hi) <= Reach(r)
      ensures AddedBelow(old(byId), byId, r)
    {
      r := CreateOrFindNode(varOrder[depth], lo, hi);
      OwnedReach(r);
      CacheGrows(old(nodeCache), old(byId), nodeCache, byId, falseNode, trueNode);
      JoinSemantics(r, lo, hi, formula, varValues, varOrder, depth, falseNode, trueNode);
      JoinOrdered(r, lo, hi, varOrder, depth);
    }

    /**
     * The two recursive calls of one decomposition step: the False branch of
     * the variable at `depth` is built, then the True branch, each under
     * `varValues` with that variable fixed. `afterLeft` is the store's node
     * list between the two builds.
     */
    method Branches(formula: Oracle, varOrder: seq<string>, depth: nat, varValues: map<string, bool>)
      returns (lo: Node, hi: Node, ghost afterLeft: seq<Node>)
      requires Valid() && depth < |varOrder|
      modifies this
      ensures Valid() && Owns(lo) && Owns(hi) && Wf(lo) && Wf(hi) && root == old(root)
      ensures old(byId) <= afterLeft <= byId
      ensures forall k :: k in old(nodeCache) ==> k in nodeCache && nodeCache[k] == old(nodeCache)[k]
      ensures forall a :: Follow(lo, a) == (if formula(Extend(varValues[varOrder[depth] := false], varOrder[depth + 1..], a)) then trueNode else falseNode)
      ensures forall a :: Follow(hi, a) == (if formula(Extend(varValues[varOrder[depth] := true], varOrder[depth + 1..], a)) then trueNode else falseNode)
      ensures OrderedFrom(lo, varOrder, depth + 1) && OrderedFrom(hi, varOrder, depth + 1)
      ensures AddedBelow(old(byId), afterLeft, lo) && AddedBelow(afterLeft, byId, hi)
      decreases |varOrder| - depth, 0
    {
      var currentVariable := varOrder[depth];

      var leftAssignment := varValues[currentVariable := false];
      lo := ConstructBdd(formula, varOrder, depth + 1, leftAssignment);

      afterLeft := byId;
      var rightAssignment := varValues[currentVariable := true];
      hi := ConstructBdd(formula, varOrder, depth + 1, rightAssignment);
      OwnedGrow(afterLeft, byId);
    }

    /**
     * Shannon decomposition from position `depth` of `varOrder`, under the
     * partial assignment `varValues`. At full depth the oracle decides the
     * terminal; otherwise the False branch is built, then the True branch,
     * and the two are joined by `CreateOrFindNode`. The outermost call of a
     * non-empty order records its result as the root.
     *
     * The result is a node of the store that respects the variable order
     * from `depth` on and whose evaluation under any assignment `a` reaches
     * the true terminal exactly when the oracle holds of `varValues` extended
     * by `a` on the remaining variables. The store only grows.
     */
    method ConstructBdd(formula: Oracle, varOrder: seq<string>, depth: nat, varValues: map<string, bool>)
      returns (r: Node)
      requires Valid() && depth <= |varOrder|
      modifies this
      ensures Valid() && Owns(r) && Wf(r) && old(byId) <= byId
      ensures forall k :: k in old(nodeCache) ==> k in nodeCache && nodeCache[k] == old(nodeCache)[k]
      ensures depth == |varOrder| ==> r == (if formula(varValues) then trueNode else falseNode) && unchanged(this)
      ensures forall a :: Follow(r, a) == (if formula(Extend(varValues, varOrder[depth..], a)) then trueNode else falseNode)
      ensures OrderedFrom(r, varOrder, depth)
      ensures root == (if depth == 0 && 0 < |varOrder| then r else old(root))
      ensures AddedBelow(old(byId), byId, r)
      decreases |varOrder| - depth, 1
    {
      if depth == |varOrder| {
        var outcome := formula(varValues);
        r := if outcome then trueNode else falseNode;
        assert varOrder[depth..] == [];
        return;
      }
      var lo: Node, hi: Node;
      ghost var afterLeft: seq<Node>;
      lo, hi, afterLeft := Branches(formula, varOrder, depth, varValues);
      ghost var afterRight := byId;
      r := JoinBranches(formula, varOrder, depth, varValues, lo, hi);
      NewNodesReached(old(byId), afterLeft, afterRight, byId, lo, hi, r);

      if depth == 0 {
        root := r;
      }
    }

    /** Everything reachable from a node of the store can be exported: terminals are exactly nodes 0 and 1. */
    lemma OwnedExportable(n: Node)
      requires Valid() && Owns(n)
      ensures Exportable(n)
    {
      OwnedReach(n);
      ReachUniqueIds(n);
      forall m | m in Reach(n) ensures m.IsLeaf() <==> m.id < 2 {
        LeafIffTerminal(m);
      }
    }

    /**
     * The Graphviz records of the diagram below `startNode`, or below the
     * root when no start is given. Without either there is nothing to
     * export from: the export fails (`None`).
     */
    method ExportToDot(startNode: Node?) returns (out: Option<seq<DotLine>>, ghost emitted: seq<Node>)
      requires Valid() && (startNode == null || Owns(startNode))
      ensures startNode == null && root == null ==> out == None
      ensures startNode != null ==> out.Some? && Exports(startNode, out.value, emitted)
      ensures startNode == null && root != null ==> out.Some? && Exports(root, out.value, emitted)
    {
      var start := startNode;
      if start == null {
        start := root;
      }
      if start == null {
        return None, [];
      }
      OwnedExportable(start);
      var lines;
      lines, emitted := ExportFrom(start);
      out := Some(lines);
    }

    /**
     * The number of distinct nodes reachable from the root, terminals
     * included, each counted once; 0 without a root.
     */
    method NodeCount() returns (count: nat)
      requires Valid()
      ensures root == null ==> count == 0
      ensures root != null ==> Wf(root) && count == |ReachIds(root)|
    {
      if root == null {
        return 0;
      }
      ReachUniqueIds(root);
      count := CountReachable(root);
    }
  }
}
