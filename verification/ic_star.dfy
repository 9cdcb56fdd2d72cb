/**
 * `IC_star.infer` of structure/inference.py: the complete undirected graph
 * over the columns, pruned by the independence oracle, with the colliders
 * oriented, and then rules 1 and 2 applied in turn until neither directs
 * another edge.
 */
module IcStar {
  import opened Wrappers
  import opened Utils
  import opened Graphs
  import opened IcSkeleton
  import opened IcOrientation

  /**
   * The pruned graph and separating sets of the first two phases. Two
   * columns stay adjacent exactly when no separating set was recorded for
   * them in either order, every recorded set is a non-empty set of other
   * columns that the oracle accepts, and so every non-adjacent pair has one.
   */
  function Skeletonize(test: Indep, cols: seq<Node>): (r: (Graph, SepSets))
    requires Distinct(cols)
    ensures WellFormed(r.0) && forall v :: v in r.0.nodes <==> v in cols && |cols| >= 2
    ensures forall x, y :: Adjacent(r.0, x, y) <==> x in cols && y in cols && x != y && (x, y) !in r.1 && (y, x) !in r.1
    ensures forall e :: e in r.1 ==>
              && r.1[e] != [] && e.0 !in r.1[e] && e.1 !in r.1[e] && test(e.0, e.1, r.1[e], false)
              && forall n :: n in r.1[e] ==> n in cols
    ensures SepSetsCover(r.0, r.1)
    ensures forall x, y :: IsSubsequence([x, y], cols) ==> PairSearched(test, cols, r, x, y)
  {
    var g0 := InitializeGraph(cols);
    PrunedAdjacency(test, g0, cols);
    PrunedSepSets(test, g0, cols);
    var r := FindConditioningSets(test, g0);
    forall x, y | IsSubsequence([x, y], cols) ensures PairSearched(test, cols, r, x, y) {
      SkeletonPair(test, cols, x, y);
    }
    r
  }

  /**
   * The outcome of pruning for the columns x before y: the pair is tested as
   * (x, y) and never as (y, x); the edge stays exactly when the test rejects
   * every non-empty subset of the other columns; otherwise the recorded set is
   * the first one the test accepts in the listing by size, then by position.
   */
  ghost predicate PairSearched(test: Indep, cols: seq<Node>, r: (Graph, SepSets), x: Node, y: Node) {
    var candidates := GetAllPossibleSets(Others(cols, x, y), None, false);
    && ((x, y) in r.1 <==> Separation(test, cols, x, y).Some?)
    && (y, x) !in r.1
    && (Adjacent(r.0, x, y) <==>
          forall z :: 1 <= |z| && IsSubsequence(z, Others(cols, x, y)) ==> !test(x, y, z, false))
    && ((x, y) in r.1 ==> FirstFound(test, x, y, candidates) == Some(r.1[(x, y)]))
  }

  /** Pruning the complete graph over the columns searches each pair in column order. */
  lemma SkeletonPair(test: Indep, cols: seq<Node>, x: Node, y: Node)
    requires Distinct(cols) && IsSubsequence([x, y], cols)
    ensures PairSearched(test, cols, FindConditioningSets(test, InitializeGraph(cols)), x, y)
  {
    var g0 := InitializeGraph(cols);
    PairOfColumns(cols, x, y);
    PairTested(cols, x, y);
    PrunedIffSeparated(test, g0, x, y);
    SeparationIsFirstFound(test, cols, x, y);
  }

  /** Adjacency after pruning the complete graph over `cols`. */
  lemma PrunedAdjacency(test: Indep, g0: Graph, cols: seq<Node>)
    requires Distinct(cols) && g0 == InitializeGraph(cols)
    ensures var (g, sep) := FindConditioningSets(test, g0);
            forall x, y :: Adjacent(g, x, y) <==> x in cols && y in cols && x != y && (x, y) !in sep && (y, x) !in sep
  {
    var (g, sep) := FindConditioningSets(test, g0);
    forall x, y ensures Adjacent(g, x, y) <==> x in cols && y in cols && x != y && (x, y) !in sep && (y, x) !in sep {
      if Adjacent(g, x, y) {
        assert (x, y) in g0.orient;
        PrunedIffSeparated(test, g0, x, y);
        assert (y, x) in g0.orient;
        PrunedIffSeparated(test, g0, y, x);
      } else if x in cols && y in cols && x != y {
        PrunedEdgesHaveOneEntry(test, g0, x, y);
      }
    }
  }

  /** The separating sets recorded while pruning the complete graph over `cols`. */
  lemma PrunedSepSets(test: Indep, g0: Graph, cols: seq<Node>)
    requires Distinct(cols) && g0 == InitializeGraph(cols)
    ensures var (g, sep) := FindConditioningSets(test, g0);
            forall e :: e in sep ==>
              && sep[e] != [] && e.0 !in sep[e] && e.1 !in sep[e] && test(e.0, e.1, sep[e], false)
              && forall n :: n in sep[e] ==> n in cols
  {
    var (g, sep) := FindConditioningSets(test, g0);
    forall e | e in sep ensures forall n :: n in sep[e] ==> n in cols {
      assert forall n :: n in sep[e] ==> n in g0.nodes;
    }
  }

  /** Neither recursion rule can direct another edge of g. */
  ghost predicate RulesClosed(g: Graph, cols: seq<Node>) {
    Rule1Closed(g) && Rule2Closed(g, cols)
  }

  /**
   * One pass of the loop of `IC_star.infer`: rule 1, then rule 2 on its
   * result. It fails when a column is not a node. Otherwise the edges stay,
   * directed edges keep their direction, a true flag means some edge was
   * directed, and a false flag means g is unchanged and closed under both
   * rules.
   */
  function Round(g: Graph, cols: seq<Node>): (r: Result<(Graph, bool), GraphError>)
    requires WellFormed(g)
    ensures r.Failure? <==> exists v :: v in cols && v !in g.nodes
    ensures r.Failure? && |cols| == 1 ==> r.error == NodeNotFound(cols[0])
    ensures r.Success? ==>
              var (h, changed) := r.value;
              && WellFormed(h) && h.nodes == g.nodes && Skeleton(h) == Skeleton(g) && KeepsDirected(g, h)
              && (changed ==> UndirectedEdges(h) < UndirectedEdges(g))
              && (!changed ==> h == g && RulesClosed(g, cols))
  {
    var (g1, f1) := Rule1(g);
    var step := Rule2(g1, cols);
    if step.Failure? then Failure(step.error)
    else
      var (g2, f2) := step.value;
      KeepsDirectedTransitive(g, g1, g2);
      Success((g2, f1 || f2))
  }

  /**
   * `IC_star.infer` with the data replaced by the oracle `test` over the
   * columns `cols`. With exactly one column the graph has no node and rule 2
   * fails looking up that column. Otherwise the result keeps the pruned
   * skeleton, keeps every collider's edges directed and every direction the
   * collider phase chose, and is closed under both recursion rules.
   */
  method Infer(test: Indep, cols: seq<Node>) returns (r: Result<(Graph, SepSets), GraphError>)
    requires Distinct(cols)
    ensures r.Failure? <==> |cols| == 1
    ensures r.Failure? ==> r.error == NodeNotFound(cols[0])
    ensures r.Success? ==>
              var (g, sep) := r.value;
              var (pruned, sep0) := Skeletonize(test, cols);
              && sep == sep0
              && WellFormed(g) && (forall v :: v in g.nodes <==> v in cols && |cols| >= 2)
              && (forall x, y :: Adjacent(g, x, y) <==> x in cols && y in cols && x != y && (x, y) !in sep && (y, x) !in sep)
              && KeepsDirected(FindColliders(pruned, sep), g)
              && (forall t :: IsColliderTriple(pruned, sep, t) ==> !IsUndirected(g, t.a, t.c) && !IsUndirected(g, t.b, t.c))
              && RulesClosed(g, cols)
  {
    var (pruned, sep) := Skeletonize(test, cols);
    var c := FindColliders(pruned, sep);
    var closed := Recurse(c, cols);
    if closed.Failure? {
      var v :| v in cols && v !in c.nodes;
      return Failure(closed.error);
    }
    var g := closed.value;
    forall t | IsColliderTriple(pruned, sep, t) ensures !IsUndirected(g, t.a, t.c) && !IsUndirected(g, t.b, t.c) {
      assert (t.a, t.c) in c.orient && (t.b, t.c) in c.orient;
    }
    if |cols| >= 1 {
      assert cols[0] in cols;
    }
    return Success((g, sep));
  }

  /**
   * The loop of `IC_star.infer`: rounds of rule 1 then rule 2 until a round
   * directs nothing. It fails when a column is not a node; otherwise the
   * result keeps the skeleton and every direction of g and is closed under
   * both rules.
   */
  method Recurse(start: Graph, cols: seq<Node>) returns (r: Result<Graph, GraphError>)
    requires WellFormed(start)
    ensures r.Failure? <==> exists v :: v in cols && v !in start.nodes
    ensures r.Failure? && |cols| == 1 ==> r.error == NodeNotFound(cols[0])
    ensures r.Success? ==>
              && WellFormed(r.value) && r.value.nodes == start.nodes && Skeleton(r.value) == Skeleton(start)
              && KeepsDirected(start, r.value) && RulesClosed(r.value, cols)
  {
    var g := start;
    var ongoing := true;
    while ongoing
      invariant WellFormed(g) && g.nodes == start.nodes && Skeleton(g) == Skeleton(start)
      invariant KeepsDirected(start, g)
      invariant ongoing || !exists v :: v in cols && v !in g.nodes
      invariant !ongoing ==> RulesClosed(g, cols)
      decreases UndirectedEdges(g), ongoing
    {
      var step := Round(g, cols);
      if step.Failure? {
        return Failure(step.error);
      }
      KeepsDirectedTransitive(start, g, step.value.0);
      g, ongoing := step.value.0, step.value.1;
    }
    return Success(g);
  }
}
