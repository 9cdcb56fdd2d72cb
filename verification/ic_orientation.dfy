/**
 * The orientation phases of the IC* learner of structure/inference.py: the
 * colliders read off the separating sets (`_find_colliders`) and the two
 * recursion rules (`_recursion_rule_1`, `_recursion_rule_2`). None of them
 * adds or removes an edge, so every neighbour list they walk can be read off
 * the input graph once; each phase is a fold over those lists that reads and
 * writes the current orientations.
 */
module IcOrientation {
  import opened Wrappers
  import opened Utils
  import opened Graphs
  import opened IcSkeleton

  // ---------------------------------------------------------------------
  // Orientation changes

  /** r has the edges of g, and every directed edge of g keeps its direction in r. */
  predicate KeepsDirected(g: Graph, r: Graph) {
    && Skeleton(r) == Skeleton(g)
    && forall e :: e in g.orient && g.orient[e] != None ==> e in r.orient && r.orient[e] == g.orient[e]
  }

  lemma KeepsDirectedTransitive(g: Graph, h: Graph, r: Graph)
    requires KeepsDirected(g, h) && KeepsDirected(h, r)
    ensures KeepsDirected(g, r)
  {
  }

  /** Directing an undirected edge removes exactly its two entries from the undirected ones. */
  lemma DirectUndirected(g: Graph, a: Node, b: Node)
    requires WellFormed(g) && IsUndirected(g, a, b)
    ensures UndirectedEdges(SetDirected(g, a, b)) == UndirectedEdges(g) - {(a, b), (b, a)}
    ensures (a, b) in UndirectedEdges(g)
    ensures KeepsDirected(g, SetDirected(g, a, b))
  {
    var r := SetDirected(g, a, b);
    assert (b, a) in g.orient;
    UndirectedMinus(g, r, a, b);
  }

  /** A graph that agrees with g except on a–b, which it directs, has a–b's entries fewer undirected. */
  lemma UndirectedMinus(g: Graph, r: Graph, a: Node, b: Node)
    requires Skeleton(r) == Skeleton(g) && PointsTo(r, a, b, b) && PointsTo(r, b, a, b)
    requires forall e :: e in g.orient && e != (a, b) && e != (b, a) ==> e in r.orient && r.orient[e] == g.orient[e]
    ensures UndirectedEdges(r) == UndirectedEdges(g) - {(a, b), (b, a)}
  {
    forall e: Edge ensures e in UndirectedEdges(r) <==> e in UndirectedEdges(g) - {(a, b), (b, a)} {
      if e == (a, b) || e == (b, a) {
        assert r.orient[e] == Some(b);
      } else if e in g.orient {
        assert r.orient[e] == g.orient[e];
      } else {
        assert e !in Skeleton(r);
      }
    }
  }

  /** Every step of p is directed forward. */
  predicate DirectedAlong(g: Graph, p: seq<Node>) {
    forall i :: 0 <= i < |p| - 1 ==> PointsTo(g, p[i], p[i + 1], p[i + 1])
  }

  /** A path directed forward in g stays directed forward when g's directed edges are kept. */
  lemma DirectedAlongKept(g: Graph, r: Graph, p: seq<Node>)
    requires KeepsDirected(g, r) && DirectedAlong(g, p)
    ensures DirectedAlong(r, p)
  {
    forall i | 0 <= i < |p| - 1 ensures PointsTo(r, p[i], p[i + 1], p[i + 1]) {
      assert PointsTo(g, p[i], p[i + 1], p[i + 1]);
    }
  }

  // ---------------------------------------------------------------------
  // Unshielded triples

  /**
   * A node `a`, one of its neighbours `c`, and a neighbour `b` of c that is
   * neither a nor a neighbour of a: the (node, neighbor, nonadjacent) of the
   * nested loops of `_find_colliders` and `_recursion_rule_1`.
   */
  datatype Triple = Triple(a: Node, c: Node, b: Node)

  predicate IsUnshielded(g: Graph, t: Triple) {
    && t.a in g.nodes && t.c in g.nodes && t.b in g.nodes
    && Adjacent(g, t.a, t.c) && Adjacent(g, t.c, t.b) && t.a != t.b && !Adjacent(g, t.a, t.b)
  }

  /** The triples a – c – b for one node a and one neighbour c, in the order of c's neighbours. */
  function Around(g: Graph, a: Node, c: Node): (r: seq<Triple>)
    ensures forall t :: t in r <==> t.a == a && t.c == c && t.b in g.nodes && Adjacent(g, c, t.b) && t.b != a && !Adjacent(g, a, t.b)
  {
    var bs := Filter(Neighbors(g, c), b => b != a && !Adjacent(g, a, b));
    var r := seq(|bs|, i requires 0 <= i < |bs| => Triple(a, c, bs[i]));
    assert forall t :: t in r <==> t.a == a && t.c == c && t.b in bs by {
      forall t ensures t in r <==> t.a == a && t.c == c && t.b in bs {
        if t.a == a && t.c == c && t.b in bs {
          var i :| 0 <= i < |bs| && bs[i] == t.b;
          assert r[i] == t;
        }
      }
    }
    r
  }

  /** The triples whose first node is a, over the neighbours cs of a in turn. */
  function AroundAll(g: Graph, a: Node, cs: seq<Node>): (r: seq<Triple>)
    ensures forall t :: t in r <==> t.a == a && t.c in cs && t.b in g.nodes && Adjacent(g, t.c, t.b) && t.b != a && !Adjacent(g, a, t.b)
  {
    if |cs| == 0 then []
    else Around(g, a, cs[0]) + AroundAll(g, a, cs[1..])
  }

  /** The triples of the nested loops, for the nodes `nodes` in turn. */
  function TriplesFrom(g: Graph, nodes: seq<Node>): (r: seq<Triple>)
    ensures forall t :: t in r <==>
              t.a in nodes && t.c in g.nodes && Adjacent(g, t.a, t.c)
              && t.b in g.nodes && Adjacent(g, t.c, t.b) && t.b != t.a && !Adjacent(g, t.a, t.b)
  {
    if |nodes| == 0 then []
    else AroundAll(g, nodes[0], Neighbors(g, nodes[0])) + TriplesFrom(g, nodes[1..])
  }

  /** Every unshielded triple of g, in the order the loops over nodes and neighbours visit it. */
  function Unshielded(g: Graph): (r: seq<Triple>)
    ensures forall t :: t in r <==> IsUnshielded(g, t)
  {
    TriplesFrom(g, g.nodes)
  }

  /** An unshielded triple stays unshielded when only orientations change. */
  lemma UnshieldedKept(g: Graph, h: Graph, ts: seq<Triple>)
    requires h.nodes == g.nodes && Skeleton(h) == Skeleton(g)
    requires forall i :: 0 <= i < |ts| ==> IsUnshielded(g, ts[i])
    ensures forall i :: 0 <= i < |ts| ==> IsUnshielded(h, ts[i])
  {
    forall i | 0 <= i < |ts| ensures IsUnshielded(h, ts[i]) {
      var t := ts[i];
      assert (t.a, t.c) in Skeleton(g) && (t.c, t.b) in Skeleton(g) && (t.a, t.b) !in Skeleton(g);
    }
  }

  // ---------------------------------------------------------------------
  // _find_colliders

  /**
   * `conditioning_sets.get((x, y))`, falling back to the entry for (y, x);
   * None when neither is recorded (the source's KeyError).
   */
  function Lookup(sep: SepSets, x: Node, y: Node): (r: Option<seq<Node>>)
    ensures r.Some? <==> (x, y) in sep || (y, x) in sep
    ensures (x, y) in sep ==> r == Some(sep[(x, y)])
    ensures (x, y) !in sep && (y, x) in sep ==> r == Some(sep[(y, x)])
  {
    if (x, y) in sep then Some(sep[(x, y)])
    else if (y, x) in sep then Some(sep[(y, x)])
    else None
  }

  /** The middle node of t is not in the separating set of its ends: a → c ← b. */
  predicate Fires(sep: SepSets, t: Triple) {
    Lookup(sep, t.a, t.b).Some? && t.c !in Lookup(sep, t.a, t.b).value
  }

  /** An unshielded triple whose middle node is outside the separating set of its ends. */
  predicate IsColliderTriple(g: Graph, sep: SepSets, t: Triple) {
    IsUnshielded(g, t) && Fires(sep, t)
  }

  /** e is one of the two edges of t, in either stored order. */
  predicate Touches(t: Triple, e: Edge) {
    e == (t.a, t.c) || e == (t.c, t.a) || e == (t.b, t.c) || e == (t.c, t.b)
  }

  /** Every pair of non-adjacent distinct nodes has a separating set recorded, in some order. */
  predicate SepSetsCover(g: Graph, sep: SepSets) {
    forall x, y :: x in g.nodes && y in g.nodes && x != y && !Adjacent(g, x, y) ==> (x, y) in sep || (y, x) in sep
  }

  /** One iteration of the innermost loop of `_find_colliders`. */
  function ColliderUpdate(g: Graph, sep: SepSets, t: Triple): (r: Graph)
    requires WellFormed(g) && IsUnshielded(g, t)
    ensures WellFormed(r) && r.nodes == g.nodes && UpdatedBy(g, r, sep, t)
  {
    if Fires(sep, t) then
      PointInto(g, t);
      SetDirected(SetDirected(g, t.a, t.c), t.b, t.c)
    else g
  }

  /** Directing a → c and then b → c, for an unshielded a – c – b, writes exactly those two edges. */
  lemma PointInto(g: Graph, t: Triple)
    requires WellFormed(g) && IsUnshielded(g, t)
    ensures Adjacent(SetDirected(g, t.a, t.c), t.b, t.c)
    ensures var r := SetDirected(SetDirected(g, t.a, t.c), t.b, t.c);
            && WellFormed(r) && r.nodes == g.nodes && Skeleton(r) == Skeleton(g)
            && PointsTo(r, t.a, t.c, t.c) && PointsTo(r, t.b, t.c, t.c)
            && PointsTo(r, t.c, t.a, t.c) && PointsTo(r, t.c, t.b, t.c)
            && forall e :: e in g.orient && !Touches(t, e) ==> r.orient[e] == g.orient[e]
  {
    assert Adjacent(g, t.b, t.c);
    var h := SetDirected(g, t.a, t.c);
    assert t.a != t.b;
  }

  /**
   * h is g after the update for t: the same edges, both edges of a firing t
   * pointing into its middle node in both entries, every other entry as in g.
   */
  predicate UpdatedBy(g: Graph, h: Graph, sep: SepSets, t: Triple) {
    && Skeleton(h) == Skeleton(g)
    && (Fires(sep, t) ==> PointsTo(h, t.a, t.c, t.c) && PointsTo(h, t.b, t.c, t.c))
    && (Fires(sep, t) ==> PointsTo(h, t.c, t.a, t.c) && PointsTo(h, t.c, t.b, t.c))
    && forall e :: e in g.orient && !(Fires(sep, t) && Touches(t, e)) ==> h.orient[e] == g.orient[e]
  }

  /**
   * The loop body of `_find_colliders` over the triples ts: a firing triple
   * directs a → c and b → c, overwriting whatever the edges held.
   */
  function ApplyColliders(g: Graph, sep: SepSets, ts: seq<Triple>): (r: Graph)
    requires WellFormed(g)
    requires forall i :: 0 <= i < |ts| ==> IsUnshielded(g, ts[i]) && Lookup(sep, ts[i].a, ts[i].b).Some?
    ensures WellFormed(r) && r.nodes == g.nodes && Skeleton(r) == Skeleton(g)
    decreases |ts|
  {
    if |ts| == 0 then g
    else
      var h := ColliderUpdate(g, sep, ts[0]);
      UnshieldedKept(g, h, ts[1..]);
      ApplyColliders(h, sep, ts[1..])
  }

  /** The orientation o of e is the one the firing triple t writes. */
  predicate Explains(sep: SepSets, t: Triple, e: Edge, o: Option<Node>) {
    Fires(sep, t) && Touches(t, e) && o == Some(t.c)
  }

  /** Every orientation r holds that g does not is written by a firing triple of ts. */
  predicate AllExplained(g: Graph, r: Graph, sep: SepSets, ts: seq<Triple>) {
    forall e :: e in r.orient && e in g.orient && r.orient[e] != g.orient[e] ==>
      exists t :: t in ts && Explains(sep, t, e, r.orient[e])
  }

  /** Every orientation `ApplyColliders` changes is written by a firing triple. */
  lemma {:induction false} CollidersJustified(g: Graph, sep: SepSets, ts: seq<Triple>)
    requires WellFormed(g)
    requires forall i :: 0 <= i < |ts| ==> IsUnshielded(g, ts[i]) && Lookup(sep, ts[i].a, ts[i].b).Some?
    ensures AllExplained(g, ApplyColliders(g, sep, ts), sep, ts)
    decreases |ts|
  {
    if |ts| > 0 {
      var h := ColliderUpdate(g, sep, ts[0]);
      UnshieldedKept(g, h, ts[1..]);
      CollidersJustified(h, sep, ts[1..]);
      var r := ApplyColliders(h, sep, ts[1..]);
      assert r == ApplyColliders(g, sep, ts);
      ExplainedStep(g, h, r, sep, ts);
    }
  }

  /** The inductive step of `CollidersJustified`. */
  lemma ExplainedStep(g: Graph, h: Graph, r: Graph, sep: SepSets, ts: seq<Triple>)
    requires |ts| > 0 && UpdatedBy(g, h, sep, ts[0])
    requires Skeleton(r) == Skeleton(h) && AllExplained(h, r, sep, ts[1..])
    ensures AllExplained(g, r, sep, ts)
  {
    assert ts == [ts[0]] + ts[1..];
    forall e | e in r.orient && e in g.orient && r.orient[e] != g.orient[e]
      ensures exists t :: t in ts && Explains(sep, t, e, r.orient[e])
    {
      assert e in Skeleton(h);
      if r.orient[e] != h.orient[e] {
        var t :| t in ts[1..] && Explains(sep, t, e, r.orient[e]);
        assert t in ts;
      } else {
        assert Explains(sep, ts[0], e, r.orient[e]);
      }
    }
  }

  /** Every directed edge of g is directed in r. */
  predicate StaysDirected(g: Graph, r: Graph) {
    forall e :: e in g.orient && g.orient[e] != None ==> e in r.orient && r.orient[e] != None
  }

  /** Both edges of every firing triple of ts are directed in r. */
  predicate FiringDirected(r: Graph, sep: SepSets, ts: seq<Triple>) {
    forall t :: t in ts && Fires(sep, t) ==> !IsUndirected(r, t.a, t.c) && !IsUndirected(r, t.b, t.c)
  }

  /** The edges of every firing triple end up directed, and a directed edge never becomes undirected. */
  lemma {:induction false} CollidersDirect(g: Graph, sep: SepSets, ts: seq<Triple>)
    requires WellFormed(g)
    requires forall i :: 0 <= i < |ts| ==> IsUnshielded(g, ts[i]) && Lookup(sep, ts[i].a, ts[i].b).Some?
    ensures StaysDirected(g, ApplyColliders(g, sep, ts))
    ensures FiringDirected(ApplyColliders(g, sep, ts), sep, ts)
    decreases |ts|
  {
    if |ts| > 0 {
      var h := ColliderUpdate(g, sep, ts[0]);
      UnshieldedKept(g, h, ts[1..]);
      CollidersDirect(h, sep, ts[1..]);
      var r := ApplyColliders(h, sep, ts[1..]);
      assert r == ApplyColliders(g, sep, ts);
      DirectStep(g, h, r, sep, ts);
    }
  }

  /** The inductive step of `CollidersDirect`. */
  lemma DirectStep(g: Graph, h: Graph, r: Graph, sep: SepSets, ts: seq<Triple>)
    requires WellFormed(g) && |ts| > 0 && IsUnshielded(g, ts[0]) && h == ColliderUpdate(g, sep, ts[0])
    requires StaysDirected(h, r) && FiringDirected(r, sep, ts[1..])
    ensures StaysDirected(g, r) && FiringDirected(r, sep, ts)
  {
    StaysStep(g, h, r, sep, ts[0]);
    FiringStep(h, r, sep, ts);
  }

  /** A collider update never undirects an edge, so edges directed before it stay directed. */
  lemma StaysStep(g: Graph, h: Graph, r: Graph, sep: SepSets, t: Triple)
    requires UpdatedBy(g, h, sep, t) && StaysDirected(h, r)
    ensures StaysDirected(g, r)
  {
    forall e | e in g.orient && g.orient[e] != None ensures e in r.orient && r.orient[e] != None {
      assert e in Skeleton(g);
    }
  }

  /** The first triple's edges, directed by its own update, stay directed to the end. */
  lemma FiringStep(h: Graph, r: Graph, sep: SepSets, ts: seq<Triple>)
    requires |ts| > 0 && (Fires(sep, ts[0]) ==> PointsTo(h, ts[0].a, ts[0].c, ts[0].c) && PointsTo(h, ts[0].b, ts[0].c, ts[0].c))
    requires StaysDirected(h, r) && FiringDirected(r, sep, ts[1..])
    ensures FiringDirected(r, sep, ts)
  {
    assert ts == [ts[0]] + ts[1..];
  }

  /**
   * `_find_colliders`: for every unshielded triple a – c – b in loop order,
   * direct a → c ← b when c is not in the separating set recorded for a and b.
   * The edge set does not change; every changed orientation points into the
   * middle of a collider triple; every edge of a collider triple ends up
   * directed (a later triple may reverse an earlier arrow).
   */
  function FindColliders(g: Graph, sep: SepSets): (r: Graph)
    requires WellFormed(g) && SepSetsCover(g, sep)
    ensures WellFormed(r) && r.nodes == g.nodes && Skeleton(r) == Skeleton(g)
    ensures forall e :: e in r.orient && r.orient[e] != g.orient[e] ==>
              exists t :: IsUnshielded(g, t) && Explains(sep, t, e, r.orient[e])
    ensures forall t :: IsColliderTriple(g, sep, t) ==> !IsUndirected(r, t.a, t.c) && !IsUndirected(r, t.b, t.c)
  {
    var ts := Unshielded(g);
    assert forall i :: 0 <= i < |ts| ==> IsUnshielded(g, ts[i]) && Lookup(sep, ts[i].a, ts[i].b).Some? by {
      forall i | 0 <= i < |ts| ensures IsUnshielded(g, ts[i]) && Lookup(sep, ts[i].a, ts[i].b).Some? {
        assert ts[i] in ts;
      }
    }
    CollidersJustified(g, sep, ts);
    CollidersDirect(g, sep, ts);
    ApplyColliders(g, sep, ts)
  }

  // ---------------------------------------------------------------------
  // _recursion_rule_1

  /** a → c points into c while c – b is still undirected. */
  predicate Rule1Applies(g: Graph, t: Triple) {
    PointsTo(g, t.a, t.c, t.c) && IsUndirected(g, t.b, t.c)
  }

  /** Rule 1 has directed e as c → b, with a → c in place. */
  predicate Rule1Explains(r: Graph, t: Triple, e: Edge) {
    (e == (t.c, t.b) || e == (t.b, t.c)) && PointsTo(r, t.c, t.b, t.b) && PointsTo(r, t.a, t.c, t.c)
  }

  /**
   * The loop of `_recursion_rule_1` over the triples ts: when a → c and
   * c – b is undirected, direct c → b and report a change. The test on
   * a → c reads the current graph; the inner loop never touches a – c, so
   * testing it once per triple is the same as testing it once per (a, c).
   */
  function ApplyRule1(g: Graph, ts: seq<Triple>): (r: (Graph, bool))
    requires WellFormed(g) && forall i :: 0 <= i < |ts| ==> IsUnshielded(g, ts[i])
    ensures WellFormed(r.0) && r.0.nodes == g.nodes && Skeleton(r.0) == Skeleton(g)
    decreases |ts|
  {
    if |ts| == 0 then (g, false)
    else
      var t := ts[0];
      if Rule1Applies(g, t) then
        var h := SetDirected(g, t.c, t.b);
        UnshieldedKept(g, h, ts[1..]);
        (ApplyRule1(h, ts[1..]).0, true)
      else ApplyRule1(g, ts[1..])
  }

  /**
   * Rule 1 only directs undirected edges, keeps every directed one, and
   * reports a change exactly when the undirected edges shrink.
   */
  lemma {:induction false} Rule1Progress(g: Graph, ts: seq<Triple>)
    requires WellFormed(g) && forall i :: 0 <= i < |ts| ==> IsUnshielded(g, ts[i])
    ensures var r := ApplyRule1(g, ts);
            && KeepsDirected(g, r.0) && UndirectedEdges(r.0) <= UndirectedEdges(g)
            && (r.1 ==> UndirectedEdges(r.0) < UndirectedEdges(g))
            && (!r.1 ==> r.0 == g)
    decreases |ts|
  {
    if |ts| > 0 {
      var t := ts[0];
      if Rule1Applies(g, t) {
        var h := SetDirected(g, t.c, t.b);
        UnshieldedKept(g, h, ts[1..]);
        DirectUndirected(g, t.c, t.b);
        Rule1Progress(h, ts[1..]);
        KeepsDirectedTransitive(g, h, ApplyRule1(h, ts[1..]).0);
      } else {
        Rule1Progress(g, ts[1..]);
      }
    }
  }

  /** Every edge undirected in g but directed in r is explained by one of the triples ts. */
  predicate Rule1JustifiedBy(g: Graph, r: Graph, ts: seq<Triple>) {
    forall e :: e in UndirectedEdges(g) && e !in UndirectedEdges(r) ==> exists t :: t in ts && Rule1Explains(r, t, e)
  }

  /** Every edge rule 1 directs is explained by one of the triples ts. */
  lemma {:induction false} Rule1Justified(g: Graph, ts: seq<Triple>)
    requires WellFormed(g) && forall i :: 0 <= i < |ts| ==> IsUnshielded(g, ts[i])
    ensures Rule1JustifiedBy(g, ApplyRule1(g, ts).0, ts)
    decreases |ts|
  {
    if |ts| > 0 {
      var t := ts[0];
      if Rule1Applies(g, t) {
        var h := SetDirected(g, t.c, t.b);
        UnshieldedKept(g, h, ts[1..]);
        Rule1Justified(h, ts[1..]);
        Rule1Progress(h, ts[1..]);
        DirectUndirected(g, t.c, t.b);
        Rule1JustifiedStep(g, h, ApplyRule1(h, ts[1..]).0, ts);
      } else {
        Rule1Justified(g, ts[1..]);
        Rule1JustifiedSkip(g, ApplyRule1(g, ts[1..]).0, ts);
      }
    }
  }

  /** Explanations by the later triples are explanations by all of them. */
  lemma Rule1JustifiedSkip(g: Graph, r: Graph, ts: seq<Triple>)
    requires |ts| > 0 && Rule1JustifiedBy(g, r, ts[1..])
    ensures Rule1JustifiedBy(g, r, ts)
  {
    assert ts == [ts[0]] + ts[1..];
  }

  /** The step of `Rule1Justified` when the first triple fires. */
  lemma Rule1JustifiedStep(g: Graph, h: Graph, r: Graph, ts: seq<Triple>)
    requires |ts| > 0 && Rule1Applies(g, ts[0]) && Adjacent(g, ts[0].c, ts[0].b)
    requires h == SetDirected(g, ts[0].c, ts[0].b)
    requires KeepsDirected(g, h) && KeepsDirected(h, r)
    requires UndirectedEdges(h) == UndirectedEdges(g) - {(ts[0].c, ts[0].b), (ts[0].b, ts[0].c)}
    requires Rule1JustifiedBy(h, r, ts[1..])
    ensures Rule1JustifiedBy(g, r, ts)
  {
    var t := ts[0];
    assert ts == [t] + ts[1..];
    assert PointsTo(h, t.c, t.b, t.b) && PointsTo(r, t.c, t.b, t.b);
    assert PointsTo(r, t.a, t.c, t.c) by {
      assert (t.a, t.c) in g.orient && g.orient[(t.a, t.c)] != None;
    }
    assert Rule1Explains(r, t, (t.c, t.b)) && Rule1Explains(r, t, (t.b, t.c));
  }

  /** When rule 1 reports no change, none of the triples ts matched. */
  lemma {:induction false} Rule1Complete(g: Graph, ts: seq<Triple>)
    requires WellFormed(g) && forall i :: 0 <= i < |ts| ==> IsUnshielded(g, ts[i])
    ensures !ApplyRule1(g, ts).1 ==> forall t :: t in ts ==> !Rule1Applies(g, t)
    decreases |ts|
  {
    if |ts| > 0 && !Rule1Applies(g, ts[0]) {
      Rule1Complete(g, ts[1..]);
      assert ts == [ts[0]] + ts[1..];
    }
  }

  /** No unshielded triple a → c – b is left with c – b undirected. */
  ghost predicate Rule1Closed(g: Graph) {
    forall t :: IsUnshielded(g, t) ==> !Rule1Applies(g, t)
  }

  /**
   * `_recursion_rule_1`: direct c → b for every unshielded a → c – b. The
   * edges stay, directed edges keep their direction, each newly directed
   * edge points away from the middle of an unshielded triple whose first
   * edge points into it, and the flag is true exactly when some edge was
   * directed; a false flag means no triple matched.
   */
  function Rule1(g: Graph): (r: (Graph, bool))
    requires WellFormed(g)
    ensures WellFormed(r.0) && r.0.nodes == g.nodes && Skeleton(r.0) == Skeleton(g)
    ensures KeepsDirected(g, r.0) && UndirectedEdges(r.0) <= UndirectedEdges(g)
    ensures r.1 ==> UndirectedEdges(r.0) < UndirectedEdges(g)
    ensures !r.1 ==> r.0 == g && Rule1Closed(g)
    ensures forall e :: e in UndirectedEdges(g) && e !in UndirectedEdges(r.0) ==>
              exists t :: IsUnshielded(g, t) && Rule1Explains(r.0, t, e)
  {
    var ts := Unshielded(g);
    assert forall i :: 0 <= i < |ts| ==> IsUnshielded(g, ts[i]) by {
      forall i | 0 <= i < |ts| ensures IsUnshielded(g, ts[i]) {
        assert ts[i] in ts;
      }
    }
    Rule1Progress(g, ts);
    Rule1Justified(g, ts);
    Rule1Complete(g, ts);
    ApplyRule1(g, ts)
  }

  // ---------------------------------------------------------------------
  // _recursion_rule_2

  /** The position of the first of `cols` that is not a node, or |cols|. */
  function FirstMissing(nodes: seq<Node>, cols: seq<Node>): (r: nat)
    ensures r <= |cols|
    ensures forall j :: 0 <= j < r ==> cols[j] in nodes
    ensures r < |cols| ==> cols[r] !in nodes
  {
    if |cols| == 0 || cols[0] !in nodes then 0 else 1 + FirstMissing(nodes, cols[1..])
  }

  /** The pairs (a, b) the loops of `_recursion_rule_2` visit: a from `cols`, b a neighbour of a. */
  function PairsFrom(g: Graph, cols: seq<Node>): (r: seq<Edge>)
    ensures forall e :: e in r <==> e.0 in cols && e.1 in g.nodes && Adjacent(g, e.0, e.1)
  {
    if |cols| == 0 then []
    else
      var ns := Neighbors(g, cols[0]);
      var head := seq(|ns|, i requires 0 <= i < |ns| => (cols[0], ns[i]));
      assert forall e :: e in head <==> e.0 == cols[0] && e.1 in ns by {
        forall e: Edge | e.0 == cols[0] && e.1 in ns ensures e in head {
          var i :| 0 <= i < |ns| && ns[i] == e.1;
          assert head[i] == e;
        }
      }
      head + PairsFrom(g, cols[1..])
  }

  /** Some simple path listed from a to b is directed forward all the way. */
  predicate HasDirectedPath(g: Graph, a: Node, b: Node)
    requires WellFormed(g)
  {
    var paths := AllPaths(g, a, b);
    exists i :: 0 <= i < |paths| && DirectedAlong(g, paths[i])
  }

  /** A simple path of three or more nodes leads from a to b along directed edges. */
  ghost predicate ForcedByPath(g: Graph, a: Node, b: Node) {
    exists p :: IsSimplePath(g, p, a, b) && |p| >= 3 && DirectedAlong(g, p)
  }

  /**
   * With a – b undirected, the search over all simple paths finds a
   * directed one exactly when a directed path through other nodes exists.
   */
  lemma HasDirectedPathIff(g: Graph, a: Node, b: Node)
    requires WellFormed(g) && IsUndirected(g, a, b)
    ensures HasDirectedPath(g, a, b) <==> ForcedByPath(g, a, b)
  {
    if HasDirectedPath(g, a, b) {
      var paths := AllPaths(g, a, b);
      var i :| 0 <= i < |paths| && DirectedAlong(g, paths[i]);
      DirectedPathIsLong(g, paths[i], a, b);
    }
    if ForcedByPath(g, a, b) {
      var p :| IsSimplePath(g, p, a, b) && |p| >= 3 && DirectedAlong(g, p);
      DirectedPathIsListed(g, p, a, b);
    }
  }

  /** A directed simple path from a to b next to an undirected a – b passes through another node. */
  lemma DirectedPathIsLong(g: Graph, p: seq<Node>, a: Node, b: Node)
    requires IsUndirected(g, a, b) && IsSimplePath(g, p, a, b) && DirectedAlong(g, p)
    ensures |p| >= 3
  {
    assert PointsTo(g, p[0], p[1], p[1]);
  }

  /** A directed simple path is among those the search lists. */
  lemma DirectedPathIsListed(g: Graph, p: seq<Node>, a: Node, b: Node)
    requires WellFormed(g) && IsSimplePath(g, p, a, b) && DirectedAlong(g, p)
    ensures HasDirectedPath(g, a, b)
  {
    var paths := AllPaths(g, a, b);
    AllPathsComplete(g, a, b, p);
    var i :| 0 <= i < |paths| && paths[i] == p;
  }

  /** A directed path survives any change that keeps the directed edges. */
  lemma ForcedKept(g: Graph, r: Graph, a: Node, b: Node)
    requires KeepsDirected(g, r) && ForcedByPath(g, a, b)
    ensures ForcedByPath(r, a, b)
  {
    var p :| IsSimplePath(g, p, a, b) && |p| >= 3 && DirectedAlong(g, p);
    DirectedAlongKept(g, r, p);
    assert forall i :: 0 <= i < |p| - 1 ==> Adjacent(g, p[i], p[i + 1]);
    assert IsSimplePath(r, p, a, b);
  }

  /** The edge x is undirected and a directed path leads from x.0 to x.1. */
  predicate Rule2Applies(g: Graph, x: Edge)
    requires WellFormed(g)
  {
    IsUndirected(g, x.0, x.1) && HasDirectedPath(g, x.0, x.1)
  }

  /** Rule 2 has directed e as x.0 → x.1 along a directed path from x.0 to x.1. */
  ghost predicate Rule2Explains(r: Graph, x: Edge, e: Edge) {
    (e == x || e == (x.1, x.0)) && PointsTo(r, x.0, x.1, x.1) && ForcedByPath(r, x.0, x.1)
  }

  /** Pairs adjacent in g stay adjacent in a graph with the same skeleton. */
  lemma PairsKept(g: Graph, h: Graph, es: seq<Edge>)
    requires Skeleton(h) == Skeleton(g) && forall i :: 0 <= i < |es| ==> Adjacent(g, es[i].0, es[i].1)
    ensures forall i :: 0 <= i < |es| ==> Adjacent(h, es[i].0, es[i].1)
  {
    forall i | 0 <= i < |es| ensures Adjacent(h, es[i].0, es[i].1) {
      assert (es[i].0, es[i].1) in Skeleton(g);
    }
  }

  /**
   * The loops of `_recursion_rule_2` over the pairs es: an undirected a – b
   * with a directed path from a to b in the current graph becomes a → b.
   */
  function ApplyRule2(g: Graph, es: seq<Edge>): (r: (Graph, bool))
    requires WellFormed(g) && forall i :: 0 <= i < |es| ==> Adjacent(g, es[i].0, es[i].1)
    ensures WellFormed(r.0) && r.0.nodes == g.nodes && Skeleton(r.0) == Skeleton(g)
    decreases |es|
  {
    if |es| == 0 then (g, false)
    else
      var x := es[0];
      if Rule2Applies(g, x) then
        var h := SetDirected(g, x.0, x.1);
        PairsKept(g, h, es[1..]);
        (ApplyRule2(h, es[1..]).0, true)
      else ApplyRule2(g, es[1..])
  }

  /**
   * Rule 2 only directs undirected edges, keeps every directed one, and
   * reports a change exactly when the undirected edges shrink.
   */
  lemma {:induction false} Rule2Progress(g: Graph, es: seq<Edge>)
    requires WellFormed(g) && forall i :: 0 <= i < |es| ==> Adjacent(g, es[i].0, es[i].1)
    ensures var r := ApplyRule2(g, es);
            && KeepsDirected(g, r.0) && UndirectedEdges(r.0) <= UndirectedEdges(g)
            && (r.1 ==> UndirectedEdges(r.0) < UndirectedEdges(g))
            && (!r.1 ==> r.0 == g)
    decreases |es|
  {
    if |es| > 0 {
      var x := es[0];
      if Rule2Applies(g, x) {
        var h := SetDirected(g, x.0, x.1);
        PairsKept(g, h, es[1..]);
        DirectUndirected(g, x.0, x.1);
        Rule2Progress(h, es[1..]);
        KeepsDirectedTransitive(g, h, ApplyRule2(h, es[1..]).0);
      } else {
        Rule2Progress(g, es[1..]);
      }
    }
  }

  /** Every edge undirected in g but directed in r is explained by one of the pairs es. */
  ghost predicate Rule2JustifiedBy(g: Graph, r: Graph, es: seq<Edge>) {
    forall e :: e in UndirectedEdges(g) && e !in UndirectedEdges(r) ==> exists x :: x in es && Rule2Explains(r, x, e)
  }

  /** Every edge rule 2 directs is explained by one of the pairs es. */
  lemma {:induction false} Rule2Justified(g: Graph, es: seq<Edge>)
    requires WellFormed(g) && forall i :: 0 <= i < |es| ==> Adjacent(g, es[i].0, es[i].1)
    ensures Rule2JustifiedBy(g, ApplyRule2(g, es).0, es)
    decreases |es|
  {
    if |es| > 0 {
      var x := es[0];
      if Rule2Applies(g, x) {
        var h := SetDirected(g, x.0, x.1);
        PairsKept(g, h, es[1..]);
        Rule2Justified(h, es[1..]);
        Rule2Progress(h, es[1..]);
        DirectUndirected(g, x.0, x.1);
        HasDirectedPathIff(g, x.0, x.1);
        Rule2JustifiedStep(g, h, ApplyRule2(h, es[1..]).0, es);
      } else {
        Rule2Justified(g, es[1..]);
        Rule2JustifiedSkip(g, ApplyRule2(g, es[1..]).0, es);
      }
    }
  }

  /** Explanations by the later pairs are explanations by all of them. */
  lemma Rule2JustifiedSkip(g: Graph, r: Graph, es: seq<Edge>)
    requires |es| > 0 && Rule2JustifiedBy(g, r, es[1..])
    ensures Rule2JustifiedBy(g, r, es)
  {
    assert es == [es[0]] + es[1..];
  }

  /** The step of `Rule2Justified` when the first pair fires. */
  lemma Rule2JustifiedStep(g: Graph, h: Graph, r: Graph, es: seq<Edge>)
    requires |es| > 0 && IsUndirected(g, es[0].0, es[0].1) && ForcedByPath(g, es[0].0, es[0].1)
    requires h == SetDirected(g, es[0].0, es[0].1)
    requires KeepsDirected(g, h) && KeepsDirected(h, r)
    requires UndirectedEdges(h) == UndirectedEdges(g) - {es[0], (es[0].1, es[0].0)}
    requires Rule2JustifiedBy(h, r, es[1..])
    ensures Rule2JustifiedBy(g, r, es)
  {
    var x := es[0];
    assert es == [x] + es[1..];
    assert PointsTo(h, x.0, x.1, x.1) && PointsTo(r, x.0, x.1, x.1);
    KeepsDirectedTransitive(g, h, r);
    ForcedKept(g, r, x.0, x.1);
    assert Rule2Explains(r, x, x) && Rule2Explains(r, x, (x.1, x.0));
  }

  /** When rule 2 reports no change, none of the pairs es matched. */
  lemma {:induction false} Rule2Complete(g: Graph, es: seq<Edge>)
    requires WellFormed(g) && forall i :: 0 <= i < |es| ==> Adjacent(g, es[i].0, es[i].1)
    ensures !ApplyRule2(g, es).1 ==> forall x :: x in es ==> !Rule2Applies(g, x)
    decreases |es|
  {
    if |es| > 0 && !Rule2Applies(g, es[0]) {
      Rule2Complete(g, es[1..]);
      assert es == [es[0]] + es[1..];
    }
  }

  /** No undirected edge a – b from a column a has a directed path from a to b. */
  ghost predicate Rule2Closed(g: Graph, cols: seq<Node>) {
    forall a, b :: a in cols && IsUndirected(g, a, b) ==> !ForcedByPath(g, a, b)
  }

  /**
   * `_recursion_rule_2`: for each column a and each neighbour b, direct an
   * undirected a – b as a → b when some simple path from a to b is directed
   * forward. It fails, like the neighbour lookup, at the first column that
   * is not a node. Otherwise the edges stay, directed edges keep their
   * direction, every newly directed edge has a directed path behind it, and
   * a false flag means the graph is unchanged and closed under the rule.
   */
  function Rule2(g: Graph, cols: seq<Node>): (r: Result<(Graph, bool), GraphError>)
    requires WellFormed(g)
    ensures r.Failure? <==> exists v :: v in cols && v !in g.nodes
    ensures r.Failure? ==> exists i :: && 0 <= i < |cols| && cols[i] !in g.nodes
                                       && (forall j :: 0 <= j < i ==> cols[j] in g.nodes)
                                       && r.error == NodeNotFound(cols[i])
    ensures r.Success? ==>
              var h := r.value.0;
              && WellFormed(h) && h.nodes == g.nodes && Skeleton(h) == Skeleton(g)
              && KeepsDirected(g, h) && UndirectedEdges(h) <= UndirectedEdges(g)
              && (r.value.1 ==> UndirectedEdges(h) < UndirectedEdges(g))
              && (!r.value.1 ==> h == g && Rule2Closed(g, cols))
              && forall e :: e in UndirectedEdges(g) && e !in UndirectedEdges(h) ==>
                   exists x: Edge :: x.0 in cols && Rule2Explains(h, x, e)
  {
    var k := FirstMissing(g.nodes, cols);
    if k < |cols| then
      assert cols[k] in cols;
      Failure(NodeNotFound(cols[k]))
    else
      assert forall v :: v in cols ==> v in g.nodes by {
        forall v | v in cols ensures v in g.nodes {
          var j :| 0 <= j < |cols| && cols[j] == v;
        }
      }
      var es := PairsFrom(g, cols);
      assert forall i :: 0 <= i < |es| ==> Adjacent(g, es[i].0, es[i].1) by {
        forall i | 0 <= i < |es| ensures Adjacent(g, es[i].0, es[i].1) {
          assert es[i] in es;
        }
      }
      Rule2Progress(g, es);
      Rule2Justified(g, es);
      assert !ApplyRule2(g, es).1 ==> Rule2Closed(g, cols) by {
        if !ApplyRule2(g, es).1 {
          Rule2Complete(g, es);
          Rule2Settled(g, cols, es);
        }
      }
      Success(ApplyRule2(g, es))
  }

  /** When no listed pair matches, the graph is closed under rule 2. */
  lemma Rule2Settled(g: Graph, cols: seq<Node>, es: seq<Edge>)
    requires WellFormed(g)
    requires forall e :: e in es <==> e.0 in cols && e.1 in g.nodes && Adjacent(g, e.0, e.1)
    requires forall x :: x in es ==> !Rule2Applies(g, x)
    ensures Rule2Closed(g, cols)
  {
    forall a, b | a in cols && IsUndirected(g, a, b) ensures !ForcedByPath(g, a, b) {
      assert (a, b) in es;
      HasDirectedPathIff(g, a, b);
    }
  }
}
