/**
 * The `Path` view of causaldag/graphs.py: the interior nodes of a node
 * sequence, each classified as a collider or not from the graph's current
 * orientations, and the path-blocking test `is_dseparated`.
 */
module Paths {
  import opened Wrappers
  import opened Utils
  import opened Graphs

  /**
   * An interior node of a path and whether it is a collider there. The
   * source's mutable `is_conditioned` flag is not stored: every query derives
   * it from its own conditioning set.
   */
  datatype PathNode = PathNode(name: Node, isCollider: bool)

  /** The edge between p[i] and its path neighbour p[j] is directed into p[i]. */
  predicate ArrowInto(g: Graph, p: seq<Node>, j: int, i: int)
    requires 0 <= i < |p| && 0 <= j < |p|
  {
    PointsTo(g, p[j], p[i], p[i])
  }

  /** Both path edges at the interior position i are directed into p[i]. */
  predicate ColliderAt(g: Graph, p: seq<Node>, i: int)
    requires 0 < i < |p| - 1
  {
    ArrowInto(g, p, i - 1, i) && ArrowInto(g, p, i + 1, i)
  }

  /**
   * `Path._initialize_nodes`: every node but the first and the last, with
   * p[i] a collider when the orientation stored for (p[i], p[i-1]) and for
   * (p[i], p[i+1]) is p[i] itself.
   */
  function ClassifyNodes(g: Graph, p: seq<Node>): (r: seq<PathNode>)
    ensures |r| == if |p| <= 2 then 0 else |p| - 2
    ensures forall i :: 0 <= i < |r| ==> r[i].name == p[i + 1]
    ensures WellFormed(g) ==> forall i :: 0 <= i < |r| ==> (r[i].isCollider <==> ColliderAt(g, p, i + 1))
  {
    if |p| <= 2 then []
    else
      seq(|p| - 2, k requires 0 <= k < |p| - 2 =>
        PathNode(p[k + 1], PointsTo(g, p[k + 1], p[k], p[k + 1]) && PointsTo(g, p[k + 1], p[k + 2], p[k + 1])))
  }

  /** The node's label is in the conditioning set; None conditions on nothing. */
  predicate Conditioned(n: PathNode, z: Option<seq<Node>>) {
    z.Some? && n.name in z.value
  }

  /** A node blocks the path: a conditioned non-collider or an unconditioned collider. */
  predicate Blocks(n: PathNode, z: Option<seq<Node>>) {
    n.isCollider != Conditioned(n, z)
  }

  /** First scan of `is_dseparated`: some non-collider is conditioned. */
  function ConditionedNonCollider(path: seq<PathNode>, z: Option<seq<Node>>): (r: bool)
    ensures r <==> exists i :: 0 <= i < |path| && !path[i].isCollider && Conditioned(path[i], z)
  {
    if |path| == 0 then false
    else if !path[0].isCollider && Conditioned(path[0], z) then true
    else
      var rest := ConditionedNonCollider(path[1..], z);
      assert rest ==> exists i :: 0 <= i < |path| && !path[i].isCollider && Conditioned(path[i], z) by {
        if rest {
          var j :| 0 <= j < |path[1..]| && !path[1..][j].isCollider && Conditioned(path[1..][j], z);
          assert path[j + 1] == path[1..][j];
        }
      }
      assert !rest ==> forall i :: 0 < i < |path| ==> path[i].isCollider || !Conditioned(path[i], z) by {
        if !rest {
          forall i | 0 < i < |path| ensures path[i].isCollider || !Conditioned(path[i], z) {
            assert path[i] == path[1..][i - 1];
          }
        }
      }
      rest
  }

  /** Second scan of `is_dseparated`: some collider is not conditioned. */
  function UnconditionedCollider(path: seq<PathNode>, z: Option<seq<Node>>): (r: bool)
    ensures r <==> exists i :: 0 <= i < |path| && path[i].isCollider && !Conditioned(path[i], z)
  {
    if |path| == 0 then false
    else if path[0].isCollider && !Conditioned(path[0], z) then true
    else
      var rest := UnconditionedCollider(path[1..], z);
      assert rest ==> exists i :: 0 <= i < |path| && path[i].isCollider && !Conditioned(path[i], z) by {
        if rest {
          var j :| 0 <= j < |path[1..]| && path[1..][j].isCollider && !Conditioned(path[1..][j], z);
          assert path[j + 1] == path[1..][j];
        }
      }
      assert !rest ==> forall i :: 0 < i < |path| ==> !path[i].isCollider || Conditioned(path[i], z) by {
        if !rest {
          forall i | 0 < i < |path| ensures !path[i].isCollider || Conditioned(path[i], z) {
            assert path[i] == path[1..][i - 1];
          }
        }
      }
      rest
  }

  /**
   * `Path.is_dseparated(z)`: the path is blocked exactly when some interior
   * node blocks it; it is open exactly when the conditioned interior nodes
   * are precisely its colliders. A path without interior nodes is never
   * blocked.
   */
  function IsDSeparated(path: seq<PathNode>, z: Option<seq<Node>>): (r: bool)
    ensures r <==> exists i :: 0 <= i < |path| && Blocks(path[i], z)
    ensures !r <==> forall i :: 0 <= i < |path| ==> (path[i].isCollider <==> Conditioned(path[i], z))
    ensures |path| == 0 ==> !r
  {
    ConditionedNonCollider(path, z) || UnconditionedCollider(path, z)
  }

  /** `z=None` conditions on nothing, exactly like the empty set. */
  lemma NoneIsEmptySet(path: seq<PathNode>)
    ensures IsDSeparated(path, None) == IsDSeparated(path, Some([]))
  {
    forall i | 0 <= i < |path| ensures Conditioned(path[i], None) == Conditioned(path[i], Some([])) {
    }
  }

  /**
   * The graph-level notion: the path p is open given the set z when the
   * interior nodes in z are exactly the colliders of p.
   */
  predicate OpenGiven(g: Graph, p: seq<Node>, z: set<Node>) {
    forall i :: 0 < i < |p| - 1 ==> (ColliderAt(g, p, i) <==> p[i] in z)
  }

  /** `is_dseparated` on the classified path decides whether p is blocked given z. */
  lemma DSeparatedIffNotOpen(g: Graph, p: seq<Node>, z: seq<Node>)
    requires WellFormed(g)
    ensures IsDSeparated(ClassifyNodes(g, p), Some(z)) <==> !OpenGiven(g, p, Elems(z))
  {
    var path := ClassifyNodes(g, p);
    if IsDSeparated(path, Some(z)) {
      var k :| 0 <= k < |path| && Blocks(path[k], Some(z));
      assert !(ColliderAt(g, p, k + 1) <==> p[k + 1] in Elems(z));
    } else {
      forall i | 0 < i < |p| - 1 ensures ColliderAt(g, p, i) <==> p[i] in Elems(z) {
        assert path[i - 1].isCollider <==> Conditioned(path[i - 1], Some(z));
      }
    }
  }

  /** A direct edge a–b has no interior node, so no set blocks it. */
  lemma DirectEdgeIsOpen(g: Graph, a: Node, b: Node, z: Option<seq<Node>>)
    ensures !IsDSeparated(ClassifyNodes(g, [a, b]), z)
  {
  }

  /**
   * A chain a → m → c: the path is blocked by conditioning on m and open
   * given the empty set.
   */
  lemma ChainExample()
    ensures var g := AddDirectedEdge(AddDirectedEdge(Graph([], map[]), "a", "m"), "m", "c");
      && IsDSeparated(ClassifyNodes(g, ["a", "m", "c"]), Some(["m"]))
      && !IsDSeparated(ClassifyNodes(g, ["a", "m", "c"]), Some([]))
  {
    var g := AddDirectedEdge(AddDirectedEdge(Graph([], map[]), "a", "m"), "m", "c");
    var path := ClassifyNodes(g, ["a", "m", "c"]);
    assert "c" != "m" by {
      assert "c"[0] != "m"[0];
    }
    assert PointsTo(g, "m", "c", "c");
    assert !path[0].isCollider;
  }

  /**
   * A collider a → m ← c: the path is blocked given the empty set and
   * opened by conditioning on m.
   */
  lemma ColliderExample()
    ensures var g := AddDirectedEdge(AddDirectedEdge(Graph([], map[]), "a", "m"), "c", "m");
      && IsDSeparated(ClassifyNodes(g, ["a", "m", "c"]), Some([]))
      && !IsDSeparated(ClassifyNodes(g, ["a", "m", "c"]), Some(["m"]))
  {
    var g := AddDirectedEdge(AddDirectedEdge(Graph([], map[]), "a", "m"), "c", "m");
    var path := ClassifyNodes(g, ["a", "m", "c"]);
    assert PointsTo(g, "m", "a", "m") && PointsTo(g, "m", "c", "m");
    assert path[0].isCollider;
  }
}
