/**
 * The orientable graph of causaldag/graphs.py (`Graph` and `CausalDAG.add_edge`):
 * an undirected graph whose every edge carries an orientation that is stored
 * for both ordered pairs of its endpoints, plus the successor, descendant and
 * simple-path queries built on it.
 */
module Graphs {
  import opened Wrappers
  import opened Utils

  /** A node label: the name of one variable (a data column). */
  type Node = string

  /** An ordered pair of endpoints; an edge a–b is stored under (a, b) and (b, a). */
  type Edge = (Node, Node)

  /**
   * `nodes` lists the nodes in insertion order. `orient` is defined exactly on
   * the edges: `orient[(a, b)]` is None while a–b is undirected, and Some(t)
   * when the edge points at its endpoint t.
   */
  datatype Graph = Graph(nodes: seq<Node>, orient: map<Edge, Option<Node>>)

  /** The errors the graph operations raise. */
  datatype GraphError =
    | EdgeNotFound(a: Node, b: Node)
    | NodeNotFound(v: Node)
    | AllNodesAreDescendants

  /**
   * The representation invariant: nodes are listed once, edges join two
   * different listed nodes, and both ordered pairs of an edge carry the same
   * orientation, which is undirected or one of the edge's own endpoints.
   */
  predicate WellFormed(g: Graph) {
    && Distinct(g.nodes)
    && forall e :: e in g.orient ==>
         && e.0 in g.nodes && e.1 in g.nodes && e.0 != e.1
         && (e.1, e.0) in g.orient && g.orient[(e.1, e.0)] == g.orient[e]
         && (g.orient[e] == None || g.orient[e] == Some(e.0) || g.orient[e] == Some(e.1))
  }

  /** The edge set, ignoring orientation. */
  function Skeleton(g: Graph): set<Edge> {
    g.orient.Keys
  }

  predicate Adjacent(g: Graph, a: Node, b: Node) {
    (a, b) in g.orient
  }

  /** The edge a–b exists and points at t. */
  predicate PointsTo(g: Graph, a: Node, b: Node, t: Node) {
    (a, b) in g.orient && g.orient[(a, b)] == Some(t)
  }

  /** The edge a–b exists and carries no direction. */
  predicate IsUndirected(g: Graph, a: Node, b: Node) {
    (a, b) in g.orient && g.orient[(a, b)] == None
  }

  /** The undirected edges, as ordered pairs. */
  function UndirectedEdges(g: Graph): set<Edge> {
    set e | e in g.orient && g.orient[e] == None
  }

  /** The nodes adjacent to v through `edges`, in the order of `nodes`. */
  function NeighborsIn(nodes: seq<Node>, edges: set<Edge>, v: Node): (r: seq<Node>)
    ensures forall n :: n in r <==> n in nodes && (v, n) in edges
  {
    Filter(nodes, n => (v, n) in edges)
  }

  /** `get_neighbors`: the nodes adjacent to v (they depend on the skeleton only). */
  function Neighbors(g: Graph, v: Node): (r: seq<Node>)
    ensures forall n :: n in r <==> n in g.nodes && Adjacent(g, v, n)
  {
    NeighborsIn(g.nodes, g.orient.Keys, v)
  }

  /** `get_edge_orientation`: one stored entry, which its reverse entry always mirrors. */
  function EdgeOrientation(g: Graph, a: Node, b: Node): (r: Option<Node>)
    requires WellFormed(g) && Adjacent(g, a, b)
    ensures Adjacent(g, b, a) && r == g.orient[(b, a)]
    ensures r == None || r == Some(a) || r == Some(b)
    ensures forall t :: (PointsTo(g, a, b, t) <==> r == Some(t)) && (PointsTo(g, b, a, t) <==> r == Some(t))
    ensures (IsUndirected(g, a, b) <==> r == None) && (IsUndirected(g, b, a) <==> r == None)
  {
    g.orient[(a, b)]
  }

  /** Storing the same orientation under both entries of a–b keeps the representation invariant. */
  lemma UpdateKeepsWellFormed(g: Graph, nodes: seq<Node>, a: Node, b: Node, o: Option<Node>)
    requires WellFormed(g) && Distinct(nodes) && Elems(g.nodes) <= Elems(nodes)
    requires a != b && a in nodes && b in nodes
    requires o == None || o == Some(a) || o == Some(b)
    ensures WellFormed(Graph(nodes, g.orient[(a, b) := o][(b, a) := o]))
  {
    var m := g.orient[(a, b) := o][(b, a) := o];
    forall e | e in m
      ensures e.0 in nodes && e.1 in nodes && e.0 != e.1
      ensures (e.1, e.0) in m && m[(e.1, e.0)] == m[e]
      ensures m[e] == None || m[e] == Some(e.0) || m[e] == Some(e.1)
    {
      if e != (a, b) && e != (b, a) {
        assert e in g.orient;
        assert e.0 in Elems(g.nodes) && e.1 in Elems(g.nodes);
        assert (e.1, e.0) != (a, b) && (e.1, e.0) != (b, a);
      }
    }
  }

  /**
   * `set_edge_orientation(a, b, set_null)`: marks a–b undirected, or directed
   * a → b, in both stored entries at once.
   */
  function SetEdgeOrientation(g: Graph, a: Node, b: Node, setNull: bool): (r: Graph)
    requires Adjacent(g, a, b)
    ensures WellFormed(g) ==> WellFormed(r)
    ensures r.nodes == g.nodes && Skeleton(r) == Skeleton(g) + {(b, a)}
    ensures setNull ==> IsUndirected(r, a, b) && IsUndirected(r, b, a)
    ensures !setNull ==> PointsTo(r, a, b, b) && PointsTo(r, b, a, b)
    ensures forall e :: e in g.orient && e != (a, b) && e != (b, a) ==> e in r.orient && r.orient[e] == g.orient[e]
  {
    var o := if setNull then None else Some(b);
    assert WellFormed(g) ==> WellFormed(Graph(g.nodes, g.orient[(a, b) := o][(b, a) := o])) by {
      if WellFormed(g) {
        UpdateKeepsWellFormed(g, g.nodes, a, b, o);
      }
    }
    UpdateBoth(g.orient, a, b, o);
    Graph(g.nodes, g.orient[(a, b) := o][(b, a) := o])
  }

  /** Writing o under both entries of a–b adds the reverse entry and changes no other entry. */
  lemma UpdateBoth(m: map<Edge, Option<Node>>, a: Node, b: Node, o: Option<Node>)
    requires (a, b) in m
    ensures var r := m[(a, b) := o][(b, a) := o];
            && r.Keys == m.Keys + {(b, a)} && r[(a, b)] == o && r[(b, a)] == o
            && forall e :: e in m && e != (a, b) && e != (b, a) ==> e in r && r[e] == m[e]
  {
  }

  /** Directs a–b towards b. */
  function SetDirected(g: Graph, a: Node, b: Node): (r: Graph)
    requires Adjacent(g, a, b)
    ensures WellFormed(g) ==> WellFormed(r)
    ensures r.nodes == g.nodes && (WellFormed(g) ==> Skeleton(r) == Skeleton(g))
    ensures PointsTo(r, a, b, b) && PointsTo(r, b, a, b)
    ensures forall e :: e in g.orient && e != (a, b) && e != (b, a) ==> e in r.orient && r.orient[e] == g.orient[e]
  {
    SetEdgeOrientation(g, a, b, false)
  }

  /** Appends v to the node list unless it is already there. */
  function InsertNode(nodes: seq<Node>, v: Node): (r: seq<Node>)
    ensures nodes <= r && Elems(r) == Elems(nodes) + {v}
    ensures forall x :: x in r <==> x in nodes || x == v
    ensures Distinct(nodes) ==> Distinct(r)
  {
    if v in nodes then nodes else nodes + [v]
  }

  /** Adds a–b (both entries set to `o`), adding missing endpoints at the end of the node list. */
  function InsertEdge(g: Graph, a: Node, b: Node, o: Option<Node>): (r: Graph)
    requires a != b
    requires o == None || o == Some(b)
    ensures g.nodes <= r.nodes
    ensures Elems(r.nodes) == Elems(g.nodes) + {a, b}
    ensures forall v :: v in r.nodes <==> v in g.nodes || v == a || v == b
    ensures Skeleton(r) == Skeleton(g) + {(a, b), (b, a)}
    ensures r.orient[(a, b)] == o && r.orient[(b, a)] == o
    ensures forall e :: e in g.orient && e != (a, b) && e != (b, a) ==> e in r.orient && r.orient[e] == g.orient[e]
  {
    var nodes := InsertNode(InsertNode(g.nodes, a), b);
    Graph(nodes, g.orient[(a, b) := o][(b, a) := o])
  }

  /** `Graph.add_edge`: the new (or re-added) edge is undirected. */
  function AddEdge(g: Graph, a: Node, b: Node): (r: Graph)
    requires a != b
    ensures WellFormed(g) ==> WellFormed(r)
    ensures g.nodes <= r.nodes && Elems(r.nodes) == Elems(g.nodes) + {a, b}
    ensures forall v :: v in r.nodes <==> v in g.nodes || v == a || v == b
    ensures Skeleton(r) == Skeleton(g) + {(a, b), (b, a)}
    ensures IsUndirected(r, a, b) && IsUndirected(r, b, a)
    ensures forall e :: e in g.orient && e != (a, b) && e != (b, a) ==> e in r.orient && r.orient[e] == g.orient[e]
  {
    var r := InsertEdge(g, a, b, None);
    assert WellFormed(g) ==> WellFormed(r) by {
      if WellFormed(g) {
        assert a in Elems(r.nodes) && b in Elems(r.nodes);
        UpdateKeepsWellFormed(g, r.nodes, a, b, None);
      }
    }
    r
  }

  /** `CausalDAG.add_edge`: the new (or re-added) edge is directed a → b. */
  function AddDirectedEdge(g: Graph, a: Node, b: Node): (r: Graph)
    requires a != b
    ensures WellFormed(g) ==> WellFormed(r)
    ensures g.nodes <= r.nodes && Elems(r.nodes) == Elems(g.nodes) + {a, b}
    ensures Skeleton(r) == Skeleton(g) + {(a, b), (b, a)}
    ensures PointsTo(r, a, b, b) && PointsTo(r, b, a, b)
    ensures forall e :: e in g.orient && e != (a, b) && e != (b, a) ==> e in r.orient && r.orient[e] == g.orient[e]
  {
    var r := InsertEdge(g, a, b, Some(b));
    assert WellFormed(g) ==> WellFormed(r) by {
      if WellFormed(g) {
        assert a in Elems(r.nodes) && b in Elems(r.nodes);
        UpdateKeepsWellFormed(g, r.nodes, a, b, Some(b));
      }
    }
    r
  }

  /** Drops both entries of a–b; the nodes stay. */
  function DeleteEdge(g: Graph, a: Node, b: Node): (r: Graph)
    ensures WellFormed(g) ==> WellFormed(r)
    ensures r.nodes == g.nodes
    ensures Skeleton(r) == Skeleton(g) - {(a, b), (b, a)}
    ensures forall e :: e in r.orient ==> e in g.orient && r.orient[e] == g.orient[e]
  {
    Graph(g.nodes, g.orient - {(a, b), (b, a)})
  }

  /** `remove_edge`: fails on a missing edge, otherwise forgets the edge and its orientation. */
  function RemoveEdge(g: Graph, a: Node, b: Node): (r: Result<Graph, GraphError>)
    requires WellFormed(g)
    ensures r.Failure? <==> !Adjacent(g, a, b)
    ensures r.Failure? ==> r.error == EdgeNotFound(a, b)
    ensures r.Success? ==>
              && WellFormed(r.value) && r.value.nodes == g.nodes
              && !Adjacent(r.value, a, b) && !Adjacent(r.value, b, a)
              && Skeleton(r.value) == Skeleton(g) - {(a, b), (b, a)}
              && forall e :: e in r.value.orient ==> r.value.orient[e] == g.orient[e]
  {
    if !Adjacent(g, a, b) then Failure(EdgeNotFound(a, b)) else Success(DeleteEdge(g, a, b))
  }

  /**
   * Removing a directed edge and adding it again with `Graph.add_edge` gives
   * an undirected edge: the old direction is not remembered.
   */
  lemma RemoveThenAddIsUndirected(g: Graph, a: Node, b: Node)
    requires WellFormed(g) && PointsTo(g, a, b, b)
    ensures RemoveEdge(g, a, b).Success?
    ensures var h := AddEdge(RemoveEdge(g, a, b).value, a, b);
            IsUndirected(h, a, b) && IsUndirected(h, b, a) && Skeleton(h) == Skeleton(g)
  {
    assert (b, a) in g.orient;
  }

  // ---------------------------------------------------------------------
  // Successors and descendants

  /** One successor step: the edge a–b points away from a, at b. */
  predicate Step(g: Graph, a: Node, b: Node) {
    PointsTo(g, a, b, b)
  }

  /** `get_successors(v)`: exactly the neighbours that v's edges point at. */
  function Successors(g: Graph, v: Node): (r: seq<Node>)
    requires v in g.nodes
    ensures forall n :: n in r <==> n in g.nodes && Step(g, v, n)
  {
    Filter(Neighbors(g, v), n => PointsTo(g, v, n, n))
  }

  /** A chain of one or more successor steps. */
  ghost predicate IsChain(g: Graph, p: seq<Node>) {
    |p| >= 2 && forall i :: 0 <= i < |p| - 1 ==> Step(g, p[i], p[i + 1])
  }

  /** w is reachable from v by one or more successor steps. */
  ghost predicate Reaches(g: Graph, v: Node, w: Node) {
    exists p :: IsChain(g, p) && p[0] == v && p[|p| - 1] == w
  }

  lemma ReachesStep(g: Graph, v: Node, x: Node, y: Node)
    requires x == v || Reaches(g, v, x)
    requires Step(g, x, y)
    ensures Reaches(g, v, y)
  {
    if x == v {
      assert IsChain(g, [v, y]);
    } else {
      var p :| IsChain(g, p) && p[0] == v && p[|p| - 1] == x;
      var q := p + [y];
      assert IsChain(g, q);
    }
  }

  /**
   * The stack discipline of the traversal: a visited node still on the stack
   * has each of its unvisited successors somewhere above it.
   */
  ghost predicate StackDiscipline(g: Graph, visited: set<Node>, stack: seq<Node>) {
    forall i, y :: 0 <= i < |stack| && stack[i] in visited && Step(g, stack[i], y) && y !in visited ==>
      y in stack[i + 1..]
  }

  /** Every node found so far is reachable from v. */
  ghost predicate AllReached(g: Graph, v: Node, descendants: set<Node>) {
    forall d :: d in descendants ==> Reaches(g, v, d)
  }

  /** Every visited node is v or a found descendant. */
  ghost predicate VisitedFound(v: Node, descendants: set<Node>, visited: set<Node>) {
    forall x :: x in visited ==> x == v || x in descendants
  }

  /** Every stacked node is a graph node, and v or a found descendant. */
  ghost predicate StackFound(g: Graph, v: Node, descendants: set<Node>, stack: seq<Node>) {
    forall i :: 0 <= i < |stack| ==> stack[i] in g.nodes && (stack[i] == v || stack[i] in descendants)
  }

  /** Every found descendant is visited or still waiting on the stack. */
  ghost predicate FoundPending(descendants: set<Node>, visited: set<Node>, stack: seq<Node>) {
    forall d :: d in descendants ==> d in visited || d in stack
  }

  /** Every successor of a visited node has been found. */
  ghost predicate VisitedClosed(g: Graph, descendants: set<Node>, visited: set<Node>) {
    forall x, y :: x in visited && Step(g, x, y) ==> y in descendants
  }

  /** What the traversal of `get_descendants` keeps true between iterations. */
  ghost predicate TraversalInvariant(g: Graph, v: Node, descendants: set<Node>, visited: set<Node>, stack: seq<Node>) {
    && visited <= Elems(g.nodes)
    && (v in visited || v in stack)
    && AllReached(g, v, descendants)
    && VisitedFound(v, descendants, visited)
    && StackFound(g, v, descendants, stack)
    && FoundPending(descendants, visited, stack)
    && VisitedClosed(g, descendants, visited)
    && StackDiscipline(g, visited, stack)
  }

  /**
   * `get_descendants(v)`: a depth-first traversal over successors with a
   * visited set, so it stops even when the orientations form a cycle. The
   * result is exactly the set of nodes reachable from v in one or more steps;
   * v itself is in it only when it lies on a directed cycle.
   */
  method Descendants(g: Graph, v: Node) returns (r: set<Node>)
    requires WellFormed(g) && v in g.nodes
    ensures forall w :: w in r <==> Reaches(g, v, w)
  {
    var descendants: set<Node> := {};
    var visited: set<Node> := {};
    var toVisit: seq<Node> := [v];
    while |toVisit| > 0
      invariant TraversalInvariant(g, v, descendants, visited, toVisit)
      decreases Elems(g.nodes) - visited, |toVisit|
    {
      var top := |toVisit| - 1;
      var current := toVisit[top];
      var succs := Successors(g, current);
      var nowVisited := visited + {current};
      var unvisited := n => n !in nowVisited;
      var pushed := Filter(succs, unvisited);
      TraversalStep(g, v, descendants, visited, toVisit, succs, unvisited);
      descendants := descendants + Elems(succs);
      visited := nowVisited;
      toVisit := toVisit[..top] + pushed;
    }
    ReachableAreFound(g, v, visited, descendants);
    return descendants;
  }

  /** One iteration of the traversal keeps its invariant and makes progress. */
  lemma TraversalStep(g: Graph, v: Node, descendants: set<Node>, visited: set<Node>, stack: seq<Node>,
                      succs: seq<Node>, unvisited: Node -> bool)
    requires WellFormed(g) && |stack| > 0
    requires TraversalInvariant(g, v, descendants, visited, stack)
    requires forall n :: n in succs <==> n in g.nodes && Step(g, stack[|stack| - 1], n)
    requires forall n :: unvisited(n) <==> n !in visited + {stack[|stack| - 1]}
    ensures var current := stack[|stack| - 1];
            TraversalInvariant(g, v, descendants + Elems(succs), visited + {current},
                               stack[..|stack| - 1] + Filter(succs, unvisited))
    ensures var current := stack[|stack| - 1];
            current in visited ==> visited + {current} == visited && Filter(succs, unvisited) == []
  {
    var top := |stack| - 1;
    var current := stack[top];
    var pushed := Filter(succs, unvisited);
    var below := stack[..top];
    assert stack == below + [current];
    if current in visited {
      forall i | 0 <= i < |succs| ensures !unvisited(succs[i]) {
        assert succs[i] in succs;
        assert Step(g, current, succs[i]);
        assert stack[top + 1..] == [];
      }
      FilterNone(succs, unvisited);
    }
    forall y | y in succs ensures Reaches(g, v, y) {
      ReachesStep(g, v, current, y);
    }
    forall i | 0 <= i < |pushed| ensures pushed[i] !in visited + {current} && pushed[i] in succs {
      assert pushed[i] in pushed;
    }
    forall y | Step(g, current, y) ensures y in succs {
      assert (current, y) in g.orient;
    }
    StackDisciplineStep(g, visited, stack, current, pushed);
    StackFoundStep(g, v, descendants, stack, succs, pushed);
    FoundPendingStep(descendants, visited, stack, succs, pushed);
    VisitedClosedStep(g, descendants, visited, current, succs);
    assert current == v || current in descendants;
  }

  /** The stack after one iteration holds only graph nodes that are v or found. */
  lemma StackFoundStep(g: Graph, v: Node, descendants: set<Node>, stack: seq<Node>, succs: seq<Node>, pushed: seq<Node>)
    requires |stack| > 0 && StackFound(g, v, descendants, stack)
    requires forall n :: n in succs ==> n in g.nodes
    requires forall i :: 0 <= i < |pushed| ==> pushed[i] in succs
    ensures StackFound(g, v, descendants + Elems(succs), stack[..|stack| - 1] + pushed)
  {
    var top := |stack| - 1;
    var stack' := stack[..top] + pushed;
    forall i | 0 <= i < |stack'| ensures stack'[i] in g.nodes && (stack'[i] == v || stack'[i] in descendants + Elems(succs)) {
      if i >= top {
        assert stack'[i] == pushed[i - top];
      } else {
        assert stack'[i] == stack[i];
      }
    }
  }

  /** After one iteration every found node is visited or on the stack. */
  lemma FoundPendingStep(descendants: set<Node>, visited: set<Node>, stack: seq<Node>, succs: seq<Node>, pushed: seq<Node>)
    requires |stack| > 0 && FoundPending(descendants, visited, stack)
    requires forall n :: n in succs && n !in visited + {stack[|stack| - 1]} ==> n in pushed
    ensures FoundPending(descendants + Elems(succs), visited + {stack[|stack| - 1]}, stack[..|stack| - 1] + pushed)
  {
    var top := |stack| - 1;
    var visited' := visited + {stack[top]};
    var stack' := stack[..top] + pushed;
    forall d | d in descendants + Elems(succs) ensures d in visited' || d in stack' {
      if d !in visited' {
        if d in descendants {
          var i :| 0 <= i < |stack| && stack[i] == d;
          assert i < top && stack'[i] == d;
        } else {
          var j :| 0 <= j < |pushed| && pushed[j] == d;
          assert stack'[top + j] == d;
        }
      }
    }
  }

  /** Visiting `current` and finding its successors keeps the visited nodes closed. */
  lemma VisitedClosedStep(g: Graph, descendants: set<Node>, visited: set<Node>, current: Node, succs: seq<Node>)
    requires VisitedClosed(g, descendants, visited)
    requires forall y :: Step(g, current, y) ==> y in succs
    ensures VisitedClosed(g, descendants + Elems(succs), visited + {current})
  {
  }

  /** Filtering keeps nothing when no element qualifies. */
  lemma StackDisciplineStep(g: Graph, visited: set<Node>, stack: seq<Node>, current: Node, pushed: seq<Node>)
    requires |stack| > 0 && stack[|stack| - 1] == current
    requires StackDiscipline(g, visited, stack)
    requires forall y :: Step(g, current, y) && y !in visited + {current} ==> y in pushed
    requires forall i :: 0 <= i < |pushed| ==> pushed[i] !in visited + {current}
    requires current in visited ==> pushed == []
    ensures StackDiscipline(g, visited + {current}, stack[..|stack| - 1] + pushed)
  {
    var top := |stack| - 1;
    var visited' := visited + {current};
    var stack' := stack[..top] + pushed;
    forall i, y | 0 <= i < top && stack'[i] in visited' && Step(g, stack'[i], y) && y !in visited'
      ensures y in stack'[i + 1..]
    {
      assert stack'[i] == stack[i];
      assert stack'[i + 1..] == stack[i + 1..top] + pushed;
      if stack[i] == current {
        assert y in pushed;
      } else {
        assert y in stack[i + 1..];
        assert stack[i + 1..] == stack[i + 1..top] + [current];
      }
    }
    forall i | top <= i < |stack'| ensures stack'[i] !in visited' {
      assert stack'[i] == pushed[i - top];
    }
  }

  /** A set that contains v and is closed under successor steps contains everything v reaches. */
  lemma ReachableAreFound(g: Graph, v: Node, visited: set<Node>, descendants: set<Node>)
    requires v in visited && descendants <= visited
    requires forall x, y :: x in visited && Step(g, x, y) ==> y in descendants
    ensures forall w :: Reaches(g, v, w) ==> w in descendants
  {
    forall w | Reaches(g, v, w) ensures w in descendants {
      var p :| IsChain(g, p) && p[0] == v && p[|p| - 1] == w;
      var i := 1;
      while i < |p|
        invariant 1 <= i <= |p|
        invariant p[i - 1] in visited
        invariant i >= 2 ==> p[i - 1] in descendants
      {
        assert Step(g, p[i - 1], p[i]);
        i := i + 1;
      }
    }
  }

  // ---------------------------------------------------------------------
  // Simple paths

  /** A simple path from a to b: two or more distinct nodes, each adjacent to the next. */
  predicate IsSimplePath(g: Graph, p: seq<Node>, a: Node, b: Node) {
    && |p| >= 2 && p[0] == a && p[|p| - 1] == b && Distinct(p)
    && forall i :: 0 <= i < |p| - 1 ==> Adjacent(g, p[i], p[i + 1])
  }

  /** `prefix` is a simple path from its first node that has not yet reached b. */
  predicate PathPrefix(g: Graph, prefix: seq<Node>, b: Node) {
    && WellFormed(g) && |prefix| > 0 && Distinct(prefix) && prefix[|prefix| - 1] != b
    && (forall i :: 0 <= i < |prefix| ==> prefix[i] in g.nodes)
    && (forall i :: 0 <= i < |prefix| - 1 ==> Adjacent(g, prefix[i], prefix[i + 1]))
  }

  /** q is a simple path to b that continues `prefix`. */
  predicate ContinuesPrefix(g: Graph, q: seq<Node>, prefix: seq<Node>, b: Node)
    requires |prefix| > 0
  {
    |q| > |prefix| && q[..|prefix|] == prefix && IsSimplePath(g, q, prefix[0], b)
  }

  /**
   * Depth-first search: every simple path to b that continues `prefix`
   * through one of `candidates` (neighbours of the prefix's last node).
   */
  function Walk(g: Graph, prefix: seq<Node>, b: Node, candidates: seq<Node>): (r: seq<seq<Node>>)
    requires PathPrefix(g, prefix, b)
    requires forall i :: 0 <= i < |candidates| ==> Adjacent(g, prefix[|prefix| - 1], candidates[i])
    ensures forall i :: 0 <= i < |r| ==> ContinuesPrefix(g, r[i], prefix, b) && r[i][|prefix|] in candidates
    decreases Elems(g.nodes) - Elems(prefix), |candidates|
  {
    if |candidates| == 0 then []
    else
      var here := Extend(g, prefix, b, candidates[0]);
      var rest := Walk(g, prefix, b, candidates[1..]);
      assert forall i :: 0 <= i < |rest| ==> rest[i][|prefix|] in candidates by {
        forall i | 0 <= i < |rest| ensures rest[i][|prefix|] in candidates {
          assert rest[i][|prefix|] in candidates[1..];
        }
      }
      here + rest
  }

  /** The simple paths to b that continue `prefix` with the node n. */
  function Extend(g: Graph, prefix: seq<Node>, b: Node, n: Node): (r: seq<seq<Node>>)
    requires PathPrefix(g, prefix, b) && Adjacent(g, prefix[|prefix| - 1], n)
    ensures forall i :: 0 <= i < |r| ==> ContinuesPrefix(g, r[i], prefix, b) && r[i][|prefix|] == n
    decreases Elems(g.nodes) - Elems(prefix), 0
  {
    if n in prefix then []
    else
      var longer := prefix + [n];
      assert longer[..|prefix|] == prefix;
      if n == b then
        assert Distinct(longer);
        [longer]
      else
        assert PathPrefix(g, longer, b) && n in Elems(g.nodes) - Elems(prefix) by {
          PrefixGrows(g, prefix, b, n);
        }
        var next := Neighbors(g, n);
        assert forall i :: 0 <= i < |next| ==> Adjacent(g, n, next[i]) by {
          forall i | 0 <= i < |next| ensures Adjacent(g, n, next[i]) {
            assert next[i] in next;
          }
        }
        var found := Walk(g, longer, b, next);
        assert forall i :: 0 <= i < |found| ==> ContinuesPrefix(g, found[i], prefix, b) && found[i][|prefix|] == n by {
          forall i | 0 <= i < |found| ensures ContinuesPrefix(g, found[i], prefix, b) && found[i][|prefix|] == n {
            ContinuesShorter(g, found[i], prefix, b, n);
          }
        }
        found
  }

  /** Appending an unvisited neighbour other than b keeps a path prefix a prefix. */
  lemma PrefixGrows(g: Graph, prefix: seq<Node>, b: Node, n: Node)
    requires PathPrefix(g, prefix, b) && Adjacent(g, prefix[|prefix| - 1], n)
    requires n !in prefix && n != b
    ensures PathPrefix(g, prefix + [n], b)
    ensures Elems(prefix + [n]) == Elems(prefix) + {n}
    ensures n in Elems(g.nodes) - Elems(prefix)
  {
    var longer := prefix + [n];
    assert longer[|longer| - 2] == prefix[|prefix| - 1];
  }

  /** A path continuing `prefix + [n]` continues `prefix` through n. */
  lemma ContinuesShorter(g: Graph, q: seq<Node>, prefix: seq<Node>, b: Node, n: Node)
    requires |prefix| > 0 && ContinuesPrefix(g, q, prefix + [n], b)
    ensures ContinuesPrefix(g, q, prefix, b) && q[|prefix|] == n
  {
    assert q[..|prefix|] == q[..|prefix| + 1][..|prefix|];
    assert q[|prefix|] == q[..|prefix| + 1][|prefix|];
  }

  /**
   * `get_all_paths(a, b)`: the simple paths from a to b, none when a == b
   * (networkx's `all_simple_paths`). Their enumeration order is not modelled;
   * only which paths are listed.
   */
  function AllPaths(g: Graph, a: Node, b: Node): (r: seq<seq<Node>>)
    requires WellFormed(g)
    ensures forall i :: 0 <= i < |r| ==> IsSimplePath(g, r[i], a, b)
  {
    if a == b || a !in g.nodes then []
    else
      var start := Neighbors(g, a);
      assert forall i :: 0 <= i < |start| ==> Adjacent(g, a, start[i]) by {
        forall i | 0 <= i < |start| ensures Adjacent(g, a, start[i]) {
          assert start[i] in start;
        }
      }
      Walk(g, [a], b, start)
  }

  /** Every simple path from a to b is listed by `AllPaths`. */
  lemma AllPathsComplete(g: Graph, a: Node, b: Node, p: seq<Node>)
    requires WellFormed(g) && IsSimplePath(g, p, a, b)
    ensures p in AllPaths(g, a, b)
  {
    assert p[0] != p[|p| - 1];
    assert Adjacent(g, p[0], p[1]);
    assert p[1] in Neighbors(g, a);
    assert p[..1] == [a];
    WalkComplete(g, [a], b, Neighbors(g, a), p);
  }

  /** `AllPaths` lists exactly the simple paths. */
  lemma AllPathsExact(g: Graph, a: Node, b: Node)
    requires WellFormed(g)
    ensures forall p :: p in AllPaths(g, a, b) <==> IsSimplePath(g, p, a, b)
  {
    forall p | IsSimplePath(g, p, a, b) ensures p in AllPaths(g, a, b) {
      AllPathsComplete(g, a, b, p);
    }
  }

  lemma {:induction false} WalkComplete(g: Graph, prefix: seq<Node>, b: Node, candidates: seq<Node>, q: seq<Node>)
    requires PathPrefix(g, prefix, b)
    requires forall i :: 0 <= i < |candidates| ==> Adjacent(g, prefix[|prefix| - 1], candidates[i])
    requires ContinuesPrefix(g, q, prefix, b) && q[|prefix|] in candidates
    ensures q in Walk(g, prefix, b, candidates)
    decreases Elems(g.nodes) - Elems(prefix), |candidates|
  {
    if candidates[0] == q[|prefix|] {
      ExtendComplete(g, prefix, b, q);
    } else {
      assert q[|prefix|] in candidates[1..];
      WalkComplete(g, prefix, b, candidates[1..], q);
    }
  }

  lemma {:induction false} ExtendComplete(g: Graph, prefix: seq<Node>, b: Node, q: seq<Node>)
    requires PathPrefix(g, prefix, b) && ContinuesPrefix(g, q, prefix, b)
    requires Adjacent(g, prefix[|prefix| - 1], q[|prefix|])
    ensures q in Extend(g, prefix, b, q[|prefix|])
    decreases Elems(g.nodes) - Elems(prefix), 0
  {
    var n := q[|prefix|];
    var longer := prefix + [n];
    assert n !in prefix by {
      forall i | 0 <= i < |prefix| ensures prefix[i] != n {
        assert prefix[i] == q[i];
      }
    }
    assert q[..|prefix| + 1] == longer;
    if n == b {
      assert q[|prefix|] == q[|q| - 1];
      assert |q| == |prefix| + 1;
      assert q == longer;
    } else {
      assert Elems(longer) == Elems(prefix) + {n};
      assert |q| > |prefix| + 1;
      assert Adjacent(g, n, q[|prefix| + 1]);
      assert q[|prefix| + 1] in Neighbors(g, n);
      assert Distinct(longer);
      WalkComplete(g, longer, b, Neighbors(g, n), q);
    }
  }
}
