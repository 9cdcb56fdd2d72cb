/**
 * `CausalDAG.backdoor_criterion` of causaldag/graphs.py: the non-empty sets
 * of non-descendants of a treatment that block every backdoor path from the
 * treatment to an outcome.
 */
module CausalDag {
  import opened Wrappers
  import opened Utils
  import opened Graphs
  import opened Paths

  /**
   * The two shapes of a successful answer: the source returns the empty
   * tuple `()` when there is no backdoor path, and otherwise the (possibly
   * empty) list of adjustment sets.
   */
  datatype Backdoor = NoBackdoorPath | AdjustmentSets(sets: seq<seq<Node>>)

  /** v is a node other than a that a cannot reach by directed edges. */
  ghost predicate IsNonDescendant(g: Graph, a: Node, v: Node) {
    v in g.nodes && v != a && !Reaches(g, a, v)
  }

  /** The non-descendants of a, in node order. */
  ghost function NonDescendants(g: Graph, a: Node): seq<Node> {
    Filter(g.nodes, v => v != a && !Reaches(g, a, v))
  }

  /** The first step of the path leaves its start a against an arrow into a. */
  predicate EntersStart(g: Graph, a: Node, p: seq<Node>) {
    |p| >= 2 && PointsTo(g, a, p[1], a)
  }

  /** A simple path from a to b whose first edge points into a. */
  predicate IsBackdoorPath(g: Graph, a: Node, b: Node, p: seq<Node>) {
    IsSimplePath(g, p, a, b) && EntersStart(g, a, p)
  }

  /** z blocks every backdoor path from a to b. */
  ghost predicate BlocksAllBackdoorPaths(g: Graph, a: Node, b: Node, z: seq<Node>) {
    forall p :: IsBackdoorPath(g, a, b, p) ==> !OpenGiven(g, p, Elems(z))
  }

  /**
   * `backdoor_criterion(a, b)`. It fails when a is not a node, when every
   * other node is a descendant of a, and when b is not a node, in that
   * order; it answers NoBackdoorPath exactly when no backdoor path exists;
   * otherwise it lists, in candidate order, exactly the non-empty
   * combinations of non-descendants that block every backdoor path.
   */
  method BackdoorCriterion(g: Graph, a: Node, b: Node) returns (r: Result<Backdoor, GraphError>)
    requires WellFormed(g)
    ensures a !in g.nodes ==> r == Failure(NodeNotFound(a))
    ensures a in g.nodes ==>
              (r == Failure(AllNodesAreDescendants) <==> forall v :: v in g.nodes ==> !IsNonDescendant(g, a, v))
    ensures a in g.nodes && (exists v :: IsNonDescendant(g, a, v)) ==>
              (r == Failure(NodeNotFound(b)) <==> b !in g.nodes)
    ensures r == Success(NoBackdoorPath) <==>
              && a in g.nodes && b in g.nodes && (exists v :: IsNonDescendant(g, a, v))
              && forall p :: !IsBackdoorPath(g, a, b, p)
    ensures r.Success? && r.value.AdjustmentSets? ==>
              && (exists p :: IsBackdoorPath(g, a, b, p))
              && (forall z :: z in r.value.sets <==>
                    z != [] && IsSubsequence(z, NonDescendants(g, a)) && BlocksAllBackdoorPaths(g, a, b, z))
              && IsSubsequence(r.value.sets, GetAllPossibleSets(NonDescendants(g, a), None, false))
  {
    if a !in g.nodes {
      return Failure(NodeNotFound(a));
    }
    var desc := Descendants(g, a);
    var nondesc := Filter(g.nodes, v => v !in desc && v != a);
    NonDescendantsFound(g, a, v => v !in desc && v != a);
    if |nondesc| == 0 {
      return Failure(AllNodesAreDescendants);
    }
    assert nondesc[0] in nondesc;
    assert IsNonDescendant(g, a, nondesc[0]);
    r := BackdoorAmong(g, a, b, nondesc);
  }

  /**
   * The part of `backdoor_criterion` after the non-descendants `nondesc` are
   * known to exist: the outcome check, the backdoor paths and the filtering
   * of the candidate sets.
   */
  method BackdoorAmong(g: Graph, a: Node, b: Node, nondesc: seq<Node>) returns (r: Result<Backdoor, GraphError>)
    requires WellFormed(g) && a in g.nodes && |nondesc| > 0
    ensures r.Failure? <==> b !in g.nodes
    ensures r.Failure? ==> r.error == NodeNotFound(b)
    ensures r == Success(NoBackdoorPath) <==> b in g.nodes && forall p :: !IsBackdoorPath(g, a, b, p)
    ensures r.Success? && r.value.AdjustmentSets? ==>
              && (exists p :: IsBackdoorPath(g, a, b, p))
              && (forall z :: z in r.value.sets <==>
                    z != [] && IsSubsequence(z, nondesc) && BlocksAllBackdoorPaths(g, a, b, z))
              && IsSubsequence(r.value.sets, GetAllPossibleSets(nondesc, None, false))
  {
    var candidates := GetAllPossibleSets(nondesc, None, false);
    if b !in g.nodes {
      return Failure(NodeNotFound(b));
    }
    var paths := AllPaths(g, a, b);
    var backdoor := Filter(paths, p => EntersStart(g, a, p));
    BackdoorPathsFound(g, a, b, p => EntersStart(g, a, p));
    if |backdoor| == 0 {
      return Success(NoBackdoorPath);
    }
    assert backdoor[0] in backdoor;
    assert IsBackdoorPath(g, a, b, backdoor[0]);
    var views := seq(|backdoor|, i requires 0 <= i < |backdoor| => ClassifyNodes(g, backdoor[i]));
    var keep := z => forall i :: 0 <= i < |views| ==> IsDSeparated(views[i], Some(z));
    var zSets := Filter(candidates, keep);
    AdjustmentSetsFound(g, a, b, nondesc, backdoor, views, keep);
    return Success(AdjustmentSets(zSets));
  }

  /** Keeping the candidates that separate every classified backdoor path keeps exactly the blocking sets. */
  lemma AdjustmentSetsFound(g: Graph, a: Node, b: Node, nondesc: seq<Node>, backdoor: seq<seq<Node>>,
                            views: seq<seq<PathNode>>, keep: seq<Node> -> bool)
    requires WellFormed(g)
    requires forall p :: p in backdoor <==> IsBackdoorPath(g, a, b, p)
    requires |views| == |backdoor| && forall i :: 0 <= i < |views| ==> views[i] == ClassifyNodes(g, backdoor[i])
    requires forall z :: keep(z) <==> forall i :: 0 <= i < |views| ==> IsDSeparated(views[i], Some(z))
    ensures forall z :: z in Filter(GetAllPossibleSets(nondesc, None, false), keep) <==>
              z != [] && IsSubsequence(z, nondesc) && BlocksAllBackdoorPaths(g, a, b, z)
  {
    var zSets := Filter(GetAllPossibleSets(nondesc, None, false), keep);
    forall z ensures z in zSets <==> z != [] && IsSubsequence(z, nondesc) && BlocksAllBackdoorPaths(g, a, b, z) {
      CandidateMembership(nondesc, z);
      BlocksAllViews(g, a, b, backdoor, views, z);
    }
  }

  /** Filtering the nodes by the computed descendants yields the non-descendants. */
  lemma NonDescendantsFound(g: Graph, a: Node, keep: Node -> bool)
    requires forall v :: keep(v) <==> v != a && !Reaches(g, a, v)
    ensures Filter(g.nodes, keep) == NonDescendants(g, a)
    ensures |Filter(g.nodes, keep)| == 0 <==> forall v :: v in g.nodes ==> !IsNonDescendant(g, a, v)
  {
    var nondesc := Filter(g.nodes, keep);
    FilterCongruent(g.nodes, keep, v => v != a && !Reaches(g, a, v));
    if |nondesc| > 0 {
      assert nondesc[0] in nondesc;
      assert IsNonDescendant(g, a, nondesc[0]);
    }
  }

  /** Filtering all simple paths by their first edge yields the backdoor paths. */
  lemma BackdoorPathsFound(g: Graph, a: Node, b: Node, keep: seq<Node> -> bool)
    requires WellFormed(g)
    requires forall p :: keep(p) <==> EntersStart(g, a, p)
    ensures forall p :: p in Filter(AllPaths(g, a, b), keep) <==> IsBackdoorPath(g, a, b, p)
  {
    AllPathsExact(g, a, b);
  }

  /** The candidate sets are exactly the non-empty combinations. */
  lemma CandidateMembership(nodes: seq<Node>, z: seq<Node>)
    ensures z in GetAllPossibleSets(nodes, None, false) <==> z != [] && IsSubsequence(z, nodes)
  {
    var candidates := GetAllPossibleSets(nodes, None, false);
    GetAllPossibleSetsShape(nodes, None, false);
    if z in candidates {
      var i :| 0 <= i < |candidates| && candidates[i] == z;
    }
    if z != [] && IsSubsequence(z, nodes) {
      GetAllPossibleSetsComplete(nodes, None, false, z);
    }
  }

  /** Testing each classified backdoor path decides whether z blocks all of them. */
  lemma BlocksAllViews(g: Graph, a: Node, b: Node, backdoor: seq<seq<Node>>, views: seq<seq<PathNode>>, z: seq<Node>)
    requires WellFormed(g)
    requires forall p :: p in backdoor <==> IsBackdoorPath(g, a, b, p)
    requires |views| == |backdoor| && forall i :: 0 <= i < |views| ==> views[i] == ClassifyNodes(g, backdoor[i])
    ensures (forall i :: 0 <= i < |views| ==> IsDSeparated(views[i], Some(z))) <==> BlocksAllBackdoorPaths(g, a, b, z)
  {
    if forall i :: 0 <= i < |views| ==> IsDSeparated(views[i], Some(z)) {
      forall p | IsBackdoorPath(g, a, b, p) ensures !OpenGiven(g, p, Elems(z)) {
        var i :| 0 <= i < |backdoor| && backdoor[i] == p;
        DSeparatedIffNotOpen(g, p, z);
      }
    }
    if BlocksAllBackdoorPaths(g, a, b, z) {
      forall i | 0 <= i < |views| ensures IsDSeparated(views[i], Some(z)) {
        assert backdoor[i] in backdoor;
        DSeparatedIffNotOpen(g, backdoor[i], z);
      }
    }
  }
}
