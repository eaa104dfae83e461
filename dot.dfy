/**
 * The records of a Graphviz export: one vertex line per node and one edge
 * line per branch, the edge tagged with the truth value of its branch.
 * Colours, styles and the text layout of the export are not modelled.
 */
module Dot {
  import opened Diagram

  datatype DotLine =
    | Vertex(id: nat, name: string)
    | Edge(src: nat, dst: nat, branch: bool)
  {
    /** The node a line describes or leaves from. */
    function Source(): nat {
      match this
      case Vertex(id, _) => id
      case Edge(src, _, _) => src
    }
  }

  /** The two terminal vertices, emitted before anything else. */
  function TerminalLines(): (r: seq<DotLine>)
    ensures |r| == 2
    ensures forall x :: x in r <==> x.Vertex? && x.id < 2 && x.name == (if x.id == 0 then "0" else "1")
  {
    [Vertex(0, "0"), Vertex(1, "1")]
  }

  /** The label line, the False edge and the True edge of one internal node. */
  function NodeLines(n: Node): (r: seq<DotLine>)
    requires n.left != null && n.right != null
    ensures |r| == 3 && forall x :: x in r ==> x.Source() == n.id
    ensures Vertex(n.id, n.variable) in r && Edge(n.id, n.left.id, false) in r && Edge(n.id, n.right.id, true) in r
    ensures forall x :: x in r && x.Edge? ==> x.dst == (if x.branch then n.right.id else n.left.id)
  {
    [Vertex(n.id, n.variable), Edge(n.id, n.left.id, false), Edge(n.id, n.right.id, true)]
  }

  ghost predicate AllInner(e: seq<Node>) {
    forall i :: 0 <= i < |e| ==> e[i].left != null && e[i].right != null
  }

  /** No two nodes of `e` share an identifier. */
  ghost predicate NoDupIds(e: seq<Node>) {
    forall i, j :: 0 <= i < j < |e| ==> e[i].id != e[j].id
  }

  /** The lines of the internal nodes of `e`, in the order of `e`. */
  function Lines(e: seq<Node>): seq<DotLine>
    requires AllInner(e)
  {
    if e == [] then [] else Lines(e[..|e| - 1]) + NodeLines(e[|e| - 1])
  }

  /** Every line of `Lines(e)` comes from a node of `e`. */
  lemma {:induction false} LinesFromNodes(e: seq<Node>, x: DotLine)
    requires AllInner(e) && x in Lines(e)
    ensures exists i :: 0 <= i < |e| && x.Source() == e[i].id
  {
    var p := e[..|e| - 1];
    assert AllInner(p);
    if x in Lines(p) {
      LinesFromNodes(p, x);
      var i :| 0 <= i < |p| && x.Source() == p[i].id;
      assert e[i] == p[i];
    } else {
      assert x.Source() == e[|e| - 1].id;
    }
  }

  /** A line whose source is no identifier of `e` is not in the export of `e`. */
  lemma LineAbsent(e: seq<Node>, x: DotLine)
    requires AllInner(e) && forall j :: 0 <= j < |e| ==> e[j].id != x.Source()
    ensures multiset(Lines(e))[x] == 0
  {
    if x in Lines(e) {
      LinesFromNodes(e, x);
    }
  }

  /** Every line of a node leaves from that node and occurs once among its lines. */
  lemma NodeLineSource(n: Node, x: DotLine)
    requires n.left != null && n.right != null
    ensures x in NodeLines(n) ==> x.Source() == n.id
    ensures multiset(NodeLines(n))[x] == if x in NodeLines(n) then 1 else 0
  {
  }

  /** The export of `e` is the export of all but its last node, followed by the last node's lines. */
  lemma LinesSplit(e: seq<Node>)
    requires AllInner(e) && e != []
    ensures AllInner(e[..|e| - 1])
    ensures multiset(Lines(e)) == multiset(Lines(e[..|e| - 1])) + multiset(NodeLines(e[|e| - 1]))
  {
  }

  /** A line of the last node of `e` occurs once when no earlier node shares its identifier. */
  lemma LineOnceLast(e: seq<Node>, x: DotLine)
    requires AllInner(e) && e != [] && x in NodeLines(e[|e| - 1])
    requires forall j :: 0 <= j < |e| - 1 ==> e[j].id != e[|e| - 1].id
    ensures multiset(Lines(e))[x] == 1
  {
    var p, last := e[..|e| - 1], e[|e| - 1];
    LinesSplit(e);
    NodeLineSource(last, x);
    forall j | 0 <= j < |p| ensures p[j].id != x.Source() {
      assert p[j] == e[j];
    }
    LineAbsent(p, x);
  }

  /** Dropping the last node of `e` keeps its nodes internal and their identifiers distinct. */
  lemma PrefixKeeps(e: seq<Node>, i: nat)
    requires AllInner(e) && NoDupIds(e) && i < |e| - 1
    ensures AllInner(e[..|e| - 1]) && NoDupIds(e[..|e| - 1])
    ensures e[..|e| - 1][i] == e[i] && e[i].id != e[|e| - 1].id
  {
  }

  /** A line that does not leave from the last node of `e` occurs as often as without that node. */
  lemma LineNotLast(e: seq<Node>, x: DotLine)
    requires AllInner(e) && e != [] && x.Source() != e[|e| - 1].id
    ensures AllInner(e[..|e| - 1])
    ensures multiset(Lines(e))[x] == multiset(Lines(e[..|e| - 1]))[x]
  {
    LinesSplit(e);
    NodeLineSource(e[|e| - 1], x);
  }

  /**
   * When the identifiers in `e` are distinct, each line of the node `e[i]`
   * occurs exactly once in the export of `e`.
   */
  lemma {:induction false} LineOnce(e: seq<Node>, i: nat, x: DotLine)
    requires AllInner(e) && NoDupIds(e) && i < |e| && x in NodeLines(e[i])
    ensures multiset(Lines(e))[x] == 1
    decreases |e|, 1
  {
    if i == |e| - 1 {
      LineOnceLast(e, x);
    } else {
      LineOnceEarlier(e, i, x);
    }
  }

  lemma {:induction false} LineOnceEarlier(e: seq<Node>, i: nat, x: DotLine)
    requires AllInner(e) && NoDupIds(e) && i < |e| - 1 && x in NodeLines(e[i])
    ensures multiset(Lines(e))[x] == 1
    decreases |e|, 0
  {
    var p := e[..|e| - 1];
    PrefixKeeps(e, i);
    NodeLineSource(e[i], x);
    LineNotLast(e, x);
    LineOnce(p, i, x);
  }

  /** The label line and the two edge lines of every node of `e` each occur exactly once. */
  lemma LinesOnce(e: seq<Node>, i: nat)
    requires AllInner(e) && NoDupIds(e) && i < |e|
    ensures multiset(Lines(e))[Vertex(e[i].id, e[i].variable)] == 1
    ensures multiset(Lines(e))[Edge(e[i].id, e[i].left.id, false)] == 1
    ensures multiset(Lines(e))[Edge(e[i].id, e[i].right.id, true)] == 1
  {
    LineOnce(e, i, Vertex(e[i].id, e[i].variable));
    LineOnce(e, i, Edge(e[i].id, e[i].left.id, false));
    LineOnce(e, i, Edge(e[i].id, e[i].right.id, true));
  }

  /** Appending a node appends its three lines. */
  lemma LinesSnoc(e: seq<Node>, n: Node)
    requires AllInner(e) && n.left != null && n.right != null
    ensures AllInner(e + [n]) && Lines(e + [n]) == Lines(e) + NodeLines(n)
  {
    assert (e + [n])[..|e|] == e;
  }

  /**
   * What the export has written so far: the terminal vertices and the lines
   * of `emitted`, no identifier twice, `emitted` holding exactly the nodes
   * of `done`.
   */
  ghost predicate Record(out: seq<DotLine>, emitted: seq<Node>, done: set<Node>) {
    AllInner(emitted) && out == TerminalLines() + Lines(emitted) && NoDupIds(emitted) &&
    (forall i :: 0 <= i < |emitted| ==> emitted[i] in done) &&
    (forall m :: m in done ==> m in emitted)
  }

  /** Writing out an internal node whose identifier is new keeps the record. */
  lemma RecordEmit(out: seq<DotLine>, emitted: seq<Node>, done: set<Node>, current: Node)
    requires Record(out, emitted, done) && current.left != null && current.right != null
    requires current.id !in Ids(done)
    ensures Record(out + NodeLines(current), emitted + [current], done + {current})
  {
    forall i | 0 <= i < |emitted| ensures emitted[i].id != current.id {
      assert emitted[i] in done;
    }
    LinesSnoc(emitted, current);
    var emitted' := emitted + [current];
    forall i | 0 <= i < |emitted'| ensures emitted'[i] in done + {current} {
      if i < |emitted| {
        assert emitted'[i] == emitted[i];
      }
    }
  }

  /** A child is a terminal, done, or still to be visited. */
  ghost predicate Covered(c: Node?, done: set<Node>, toVisit: seq<Node>) {
    c == null || c.IsLeaf() || c in done || c in toVisit
  }

  /**
   * What the export traversal keeps true: `done`, the internal nodes written
   * out so far, are reachable and their identifiers are `seen`; everything
   * still to visit is reachable; the start and the children of every node
   * done are terminals, done, or still to visit.
   */
  ghost predicate Frontier(start: Node, seen: set<nat>, toVisit: seq<Node>, done: set<Node>)
    requires Wf(start)
  {
    done <= InnerReach(start) &&
    seen == Ids(done) &&
    (forall m :: m in toVisit ==> m in Reach(start)) &&
    Covered(start, done, toVisit) &&
    (forall m :: m in done ==> Covered(m.left, done, toVisit) && Covered(m.right, done, toVisit))
  }

  /** The conditions under which the export from `start` is defined. */
  ghost predicate Exportable(start: Node) {
    Wf(start) && UniqueIds(Reach(start)) &&
    forall m :: m in Reach(start) ==> (m.IsLeaf() <==> m.id < 2)
  }

  /**
   * `out` is the export from `start` written in the order `emitted`: the
   * terminal vertices, then the lines of `emitted`, which holds every
   * internal node reachable from `start`, nothing else, and no identifier
   * twice.
   */
  ghost predicate Exports(start: Node, out: seq<DotLine>, emitted: seq<Node>) {
    Wf(start) && AllInner(emitted) && out == TerminalLines() + Lines(emitted) &&
    NoDupIds(emitted) &&
    (forall i :: 0 <= i < |emitted| ==> emitted[i] in InnerReach(start)) &&
    (forall m :: m in InnerReach(start) ==> m in emitted)
  }

  /** Popping a node already written out, or a terminal, keeps the frontier. */
  lemma FrontierSkip(start: Node, seen: set<nat>, toVisit: seq<Node>, done: set<Node>, current: Node)
    requires Exportable(start) && Frontier(start, seen, toVisit + [current], done)
    requires current.id in seen || current.id == 0 || current.id == 1
    ensures Frontier(start, seen, toVisit, done)
  {
    var pending := toVisit + [current];
    assert current in pending;
    if current.id in seen {
      var m :| m in done && m.id == current.id;
      assert m == current;
    }
    assert current.IsLeaf() || current in done;
    forall m | m in toVisit ensures m in Reach(start) {
      assert m in pending;
    }
    assert Covered(start, done, pending);
    forall m | m in done ensures Covered(m.left, done, toVisit) && Covered(m.right, done, toVisit) {
      assert Covered(m.left, done, pending) && Covered(m.right, done, pending);
    }
  }

  /**
   * Popping an internal node whose identifier has not been seen, marking it
   * done and pushing its children keeps the frontier, with one more node done.
   */
  lemma FrontierEmit(start: Node, seen: set<nat>, toVisit: seq<Node>, done: set<Node>, current: Node)
    requires Exportable(start) && Frontier(start, seen, toVisit + [current], done)
    requires current.id !in seen && current.id != 0 && current.id != 1
    ensures current.left != null && current.right != null && current !in done
    ensures current in InnerReach(start)
    ensures Frontier(start, seen + {current.id}, toVisit + [current.left, current.right], done + {current})
  {
    var pending := toVisit + [current];
    assert current in pending;
    ReachChild(start, current);
    IdsAdd(done, current);
    var done', toVisit' := done + {current}, toVisit + [current.left, current.right];
    forall m | m in toVisit' ensures m in Reach(start) {
      if m in toVisit {
        assert m in pending;
      }
    }
    assert Covered(start, done, pending);
    forall m | m in done' ensures Covered(m.left, done', toVisit') && Covered(m.right, done', toVisit') {
      if m != current {
        assert Covered(m.left, done, pending) && Covered(m.right, done, pending);
      }
    }
  }

  /** With nothing left to visit, every internal node reachable from `start` is done. */
  lemma FrontierDone(start: Node, seen: set<nat>, done: set<Node>)
    requires Exportable(start) && Frontier(start, seen, [], done)
    ensures InnerReach(start) <= done
  {
    forall m | m in done ensures !m.IsLeaf() {
      assert m in InnerReach(start);
    }
    forall m, c | m in done && IsChild(m, c) ensures c.IsLeaf() || c in done {
      assert Covered(m.left, done, []) && Covered(m.right, done, []);
    }
    assert Covered(start, done, []);
    ClosedContainsInner(done, start);
  }

  /**
   * Writing out a popped internal node whose identifier has not been seen:
   * its vertex, its False edge and its True edge; its identifier is marked
   * seen and its False child, then its True child, are pushed. One more
   * reachable internal node is then done.
   */
  method Emit(start: Node, out: seq<DotLine>, ghost emitted: seq<Node>, seen: set<nat>,
              toVisit: seq<Node>, ghost done: set<Node>, current: Node)
    returns (out': seq<DotLine>, ghost emitted': seq<Node>, seen': set<nat>,
             toVisit': seq<Node>, ghost done': set<Node>)
    requires Exportable(start) && Frontier(start, seen, toVisit + [current], done) && Record(out, emitted, done)
    requires current.id !in seen && current.id != 0 && current.id != 1
    ensures current.left != null && current.right != null
    ensures out' == out + NodeLines(current) && seen' == seen + {current.id}
    ensures toVisit' == toVisit + [current.left, current.right]
    ensures emitted' == emitted + [current] && done' == done + {current}
    ensures Frontier(start, seen', toVisit', done') && Record(out', emitted', done')
    ensures |InnerReach(start) - done'| < |InnerReach(start) - done|
  {
    FrontierEmit(start, seen, toVisit, done, current);
    RecordEmit(out, emitted, done, current);
    assert InnerReach(start) - (done + {current}) < InnerReach(start) - done;
    seen' := seen + {current.id};
    out' := out + NodeLines(current);
    emitted' := emitted + [current];
    done' := done + {current};
    var falseChild: Node, trueChild: Node := current.left, current.right;
    toVisit' := toVisit + [falseChild, trueChild];
  }

  /**
   * One round of the export loop: pop the last node to visit; skip it if
   * its identifier was seen or it is a terminal (identifier 0 or 1), and
   * `Emit` it otherwise. Either the nodes done stay the same and fewer are
   * left to visit, or one more reachable internal node is done.
   */
  method Visit(start: Node, out: seq<DotLine>, ghost emitted: seq<Node>, seen: set<nat>,
               toVisit: seq<Node>, ghost done: set<Node>)
    returns (out': seq<DotLine>, ghost emitted': seq<Node>, seen': set<nat>,
             toVisit': seq<Node>, ghost done': set<Node>)
    requires Exportable(start) && |toVisit| > 0
    requires Frontier(start, seen, toVisit, done) && Record(out, emitted, done)
    ensures var current, rest := toVisit[|toVisit| - 1], toVisit[..|toVisit| - 1];
            if current.id in seen || current.id == 0 || current.id == 1 then
              out' == out && seen' == seen && toVisit' == rest
            else
              current.left != null && current.right != null &&
              out' == out + NodeLines(current) && seen' == seen + {current.id} &&
              toVisit' == rest + [current.left, current.right]
    ensures Frontier(start, seen', toVisit', done') && Record(out', emitted', done')
    ensures (done' == done && |toVisit'| < |toVisit|) ||
            |InnerReach(start) - done'| < |InnerReach(start) - done|
  {
    var current := toVisit[|toVisit| - 1];
    var rest := toVisit[..|toVisit| - 1];
    assert toVisit == rest + [current];
    if current.id in seen || current.id == 0 || current.id == 1 {
      FrontierSkip(start, seen, rest, done, current);
      return out, emitted, seen, rest, done;
    }
    out', emitted', seen', toVisit', done' := Emit(start, out, emitted, seen, rest, done, current);
  }

  /**
   * The worklist traversal of `export_to_dot` from `start`: the two terminal
   * vertices, then one `Visit` round while nodes are left to visit.
   *
   * `emitted` is the sequence of internal nodes in the order they were
   * written out. Each internal node reachable from `start` is in it, nothing
   * else is, and no identifier occurs twice, so each line occurs once.
   */
  method ExportFrom(start: Node) returns (out: seq<DotLine>, ghost emitted: seq<Node>)
    requires Exportable(start)
    ensures Exports(start, out, emitted)
  {
    out := TerminalLines();
    emitted := [];
    var seen: set<nat> := {};
    var toVisit: seq<Node> := [start];
    ghost var done: set<Node> := {};
    ghost var inner := InnerReach(start);

    while |toVisit| > 0
      invariant Frontier(start, seen, toVisit, done)
      invariant Record(out, emitted, done)
      decreases |inner - done|, |toVisit|
    {
      out, emitted, seen, toVisit, done := Visit(start, out, emitted, seen, toVisit, done);
    }
    FrontierDone(start, seen, done);
  }
}
