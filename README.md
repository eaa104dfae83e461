# ROBDD construction in Dafny

This project models the core of a small Reduced Ordered Binary Decision
Diagram (ROBDD) library and proves its properties:

- the node store with its unique table (hash-consing);
- the two reduction rules applied when a node is requested;
- the recursive Shannon-decomposition builder;
- the node-count traversal;
- the Graphviz export traversal.

Three modules:

- `Diagram` (diagram.dfy): decision-diagram nodes and what a diagram means.
  - A `Node` is an object with constant fields: an identifier, a label, and a False (`left`) and a True (`right`) child.
  - Node identity is reference identity, as in the library, which compares nodes with `==` and defines no equality.
  - `Follow` evaluates a diagram under an assignment: at every internal node it takes `right` when the node's variable is true and `left` when it is false.
  - `OrderedFrom` says that a diagram respects a variable order from a given position on.
  - `Reach` and `InnerReach` give the nodes reachable from a node.
- `Dot` (dot.dfy): the records of the Graphviz export and its worklist traversal. There is one vertex line per node and one edge line per branch, each edge tagged with the truth value of its branch.
- `Bdd` (robdd.dfy): the store class `Robdd` and its operations.
  - The store's ghost field `byId` lists every node it has created, in the order of creation (node `i` has identifier `i`).
  - The store invariant `Valid` says:
    - the terminals are nodes 0 ("0") and 1 ("1");
    - the unique table holds exactly the internal nodes 2 .. `nextId` - 1;
    - each table entry is filed under its own (variable, left id, right id) triple;
    - every entry has two different children created before it.

The main results:

- `ConstructBdd` returns a node whose evaluation under any assignment reaches the true terminal exactly when the oracle holds of the assignment it would have been asked about. That node respects the variable order.
- `Canonical`: within one store, two nodes that respect the same order of distinct variables and represent the same function are the same node.
- `NodeCount` counts exactly the identifiers reachable from the root, each identifier once. A node with several parents is popped several times but counted once.
- `ExportToDot` writes out exactly the internal nodes reachable from its start, each node once.

`ConstructBdd` follows the library as written when the variable order is empty. The call at depth 0 then returns a terminal straight from the oracle and does not set the root, since the root is only assigned on the internal-node path (robdd.py:86-91, 110-111). On a fresh store `NodeCount` then returns 0; otherwise the root and `NodeCount` keep their earlier values.

The loops of `node_count` and `export_to_dot` are methods that do not touch the store:
- `Bdd.CountReachable` and `Dot.ExportFrom` run the loop;
- `Bdd.CountStep` and `Dot.Visit` run one round of it;
- `Bdd.Admit` counts one new node and `Dot.Emit` writes out one node.

`NodeCount` and `ExportToDot` establish the store facts these methods need and call them. The two recursive calls of `construct_bdd` are `Branches`, and its last step is `JoinBranches`, which calls `CreateOrFindNode` and proves the result correct. Both splits keep each proof small; the operations themselves behave as in the library.

## Model

| member | source | states |
|---|---|---|
| Diagram.Node.constructor | robdd.py:13-17 | A node holds the identifier, label, False child and True child it was made with |
| Bdd.Robdd.constructor | robdd.py:31-39 | A fresh store is valid. It holds exactly the terminals 0 ("0") and 1 ("1"), both without children. The unique table is empty, the next identifier is 2 and there is no root |
| Diagram.Node.IsLeaf | robdd.py:19-20 | A node is a leaf when it has neither child. It has no contract of its own: `LeafIsOutcome` and `LeafIffTerminal` state what being a leaf means |
| Diagram.LeafIsOutcome | robdd.py:19-20 | A well-formed node is a leaf exactly when evaluation under every assignment stops at the node itself |
| Bdd.Robdd.LeafIffTerminal | robdd.py:19-20 | A node of a valid store is a leaf (no children) exactly when it is node 0 or node 1 |
| Bdd.Robdd.CreateOrFindNode | robdd.py:41-61 | Equal children: the child is returned and nothing changes. A triple already in the table: its entry is returned and nothing changes. Otherwise: a new node gets the old next identifier, the given label and children; the table gains exactly that key, the next identifier grows by one. The root never changes and the store invariant is kept |
| Diagram.Key | robdd.py:52 | The unique-table key of an internal node: its variable and the identifiers of its False and True children. It has no contract of its own: `KeyDeterminesMeaning` states what the key fixes |
| Diagram.KeyDeterminesMeaning | robdd.py:52-55 | Two internal nodes of one diagram with no identifier shared by two reachable nodes and with the same key have the same children and evaluate alike under every assignment, so returning the stored node for a known key is sound |
| Bdd.InsertOk | robdd.py:57-60 | Filing a node with a new triple under the next identifier keeps the store invariant |
| Bdd.Robdd.CacheEntries | robdd.py:52-60 | Every table entry is a node of the store, internal, with an identifier in 2 .. nextId - 1, filed under its own triple |
| Bdd.Robdd.CacheInjective | robdd.py:52-59 | Distinct keys of the table map to distinct nodes with distinct identifiers |
| Bdd.Robdd.CacheReduced | robdd.py:48-52 | No table entry is a redundant test: its key's two identifiers differ and so do its two children |
| Bdd.Robdd.IdsDense | robdd.py:58-60 | Every identifier from 2 to nextId - 1 belongs to some table entry |
| Bdd.Robdd.OwnedReach | robdd.py:48-61 | Every node reachable from a node of the store is a node of the store, and the diagram is acyclic (well-formed) |
| Bdd.Robdd.ReachUniqueIds | robdd.py:58-60 | Nodes reachable from a node of the store have pairwise distinct identifiers |
| Bdd.Robdd.ConstructBdd | robdd.py:77-113 | At full depth, the terminal the oracle selects on the given assignment, with no state change. Otherwise the result is a node of the store. Under every assignment `a` its evaluation reaches the true terminal exactly when the oracle holds of the given assignment extended by `a` on the remaining variables, and the false terminal otherwise. The result respects the order from `depth`. The store only grows, old table entries stay, and the root is set exactly by the depth-0 call on a non-empty order. Every node the call adds to the store is reachable from its result |
| Bdd.Robdd.Branches | robdd.py:94-104 | The False branch is built with the variable at `depth` fixed to false, then the True branch with it true. Each is a node of the store that represents the function with that variable fixed and respects the order from `depth` + 1. The nodes added by the first build are reachable from the False branch and those added by the second from the True branch. The store stays valid, keeps its table entries and its root |
| Diagram.Extend | robdd.py:96-103 | The assignment at the bottom of the recursion binds every remaining variable to the value the path gives it, and keeps the earlier bindings of all other variables |
| Bdd.Robdd.JoinBranches | robdd.py:106-107 | Joining the False and True branches built for the variable at `depth` gives a node of the store that represents the function from `depth` on and respects the order from `depth`. The store stays valid, only grows, keeps its table entries and its root. The store gains at most the returned node, and everything reachable from either branch is reachable from it |
| Bdd.NewNodesReached | robdd.py:94-107 | When the False build, the True build and the join each add only nodes reachable from their own result, and both branches lie below the joined node, the whole step adds only nodes reachable from the joined node |
| Bdd.JoinSemantics | robdd.py:94-107 | One step of Shannon decomposition is sound. If the False branch represents the function with the variable false and the True branch the function with it true, then the node for the two represents the function |
| Bdd.JoinOrdered | robdd.py:94-107 | Joining two branches ordered from position d + 1 gives a node ordered from d, also when redundancy elimination returns a branch |
| Bdd.CacheGrows | robdd.py:54-59 | As a valid store grows, every table entry stays in place |
| Diagram.Follow | robdd.py:16-17 | Evaluation ends at a leaf reachable from the start |
| Diagram.FollowIgnoresEarlier | robdd.py:94-107 | A diagram ordered from position d over distinct variables does not depend on any variable at an earlier position |
| Diagram.FollowBranches | robdd.py:96-104 | Fixing an internal node's own variable to false makes it evaluate as its False child, and to true as its True child |
| Diagram.ChildrenLater | robdd.py:94-107 | Along edges, the positions of the labels in the order strictly increase |
| Diagram.OrderedWeaken | robdd.py:94-107 | Respecting the order from a position implies respecting it from any earlier position |
| Bdd.Robdd.DependsOnLabel | robdd.py:48-49 | Every internal node of the store depends on its own variable: some assignment changes its outcome when only that variable is flipped |
| Bdd.Robdd.EarlierLabelDiffers | robdd.py:48-55 | A node testing the variable at position k never represents the same function as a node that respects the order only after k |
| Bdd.Robdd.Canonical | robdd.py:41-61 | Two nodes of the store that respect the same order of distinct variables and represent the same function are the same node |
| Bdd.CountReachable | robdd.py:191-205 | The worklist loop returns the number of distinct identifiers reachable from its start, terminals included |
| Bdd.CountStep | robdd.py:195-203 | One round pops the last pending node. It skips the node when its identifier is counted, and otherwise counts it and pushes its present children. The traversal invariant is kept and the loop measure decreases |
| Bdd.Admit | robdd.py:198-203 | Counting a popped node whose identifier is new adds the identifier to the counted set and pushes the False child, then the True child, each when present. The traversal invariant is kept and one more reachable node is counted |
| Bdd.CountDone | robdd.py:194-205 | With nothing pending, the counted identifiers are exactly those reachable from the start |
| Bdd.Robdd.NodeCount | robdd.py:186-205 | 0 without a root. Otherwise the number of distinct identifiers reachable from the root, terminals included, each counted once |
| Bdd.Robdd.ExportToDot | robdd.py:115-147 | Without a start node and without a root the export fails. Otherwise it starts at the given node, else at the root. It writes the two terminal vertices, then for each internal node reachable from the start its vertex, its False edge and its True edge. Every such node is written, no other node, and no identifier twice |
| Dot.ExportFrom | robdd.py:123-144 | The export traversal from a well-formed start whose leaves are exactly the nodes 0 and 1. It writes the terminal vertices and then the lines of a sequence that holds every reachable internal node, nothing else, and no identifier twice |
| Dot.Visit | robdd.py:129-144 | One round pops the last node to visit. It skips the node when its identifier was seen or it is 0 or 1, and otherwise writes it out. The traversal invariant is kept and the loop measure decreases |
| Dot.Emit | robdd.py:134-144 | Writing out an internal node whose identifier is new appends its vertex, False edge and True edge. It marks the identifier seen and pushes the False child, then the True child, and keeps the traversal invariant |
| Dot.TerminalLines | robdd.py:123-124 | The export starts with exactly two lines: the vertices 0 labelled "0" and 1 labelled "1" |
| Dot.NodeLines | robdd.py:135-141 | An internal node is written as three lines, all leaving from its identifier: its vertex with its variable, the edge tagged false to its False child and the edge tagged true to its True child. Every edge among them leads to the child of its branch |
| Dot.FrontierDone | robdd.py:129-144 | With nothing left to visit, every internal node reachable from the start has been written out |
| Dot.LinesOnce | robdd.py:134-141 | When no identifier is written twice, each written node's vertex line, False edge and True edge occur exactly once in the export |
| Bdd.Robdd.OwnedExportable | robdd.py:123-131 | Below any node of the store, the leaves are exactly the nodes 0 and 1, so the export never expands a terminal |

## Left out

- `eval_formula` (robdd.py:63-75) rewrites a formula string and evaluates it with Python's `eval`, which is a foreign evaluator. The formula is modelled as a total oracle from assignments to truth values. The string branch of `construct_bdd` (robdd.py:87-88) and its print-and-return-false error path are not modelled.
- The default `var_values=None` of `construct_bdd` (robdd.py:82-83): callers pass the empty map.
- The default `depth=0` of `construct_bdd` (robdd.py:77): callers pass depth 0.
- Bdd.Robdd.ConstructBdd: requires `depth <= |varOrder|`. The library would fail on an index out of range beyond that, and the other calls of `construct_bdd` never go past it.
- The text of the export: the `digraph` header, the closing brace, the colours and styles, and joining the lines with newlines. Only the vertex and edge records are modelled. A failed export (`None`) stands for the error that reading the identifier of a missing start node raises.
- Dot.ExportFrom and Bdd.CountReachable do not state the order in which the stack discipline visits nodes. They state which nodes are visited, that each is visited once and, for the export, that the lines follow `emitted`, the ghost sequence of the nodes in the order they were written out.
- Bdd.Robdd.ExportToDot: requires the start node to be a node of the store. A node from elsewhere could break the traversal, for example an internal node with identifier 0 or a leaf with identifier 2 or more.
- `render_to_file` (robdd.py:149-157): file output.
- `render_to_image` (robdd.py:159-184): an HTTP request to an outside rendering service.
- `Node.__repr__` (robdd.py:22-25): debug text only.
- main.py: a driver script with fixed formulas, printing and rendering, and no logic of its own. It is not part of this model.
