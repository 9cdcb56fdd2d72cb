/**
 * The first two phases of the IC* learner of structure/inference.py: the
 * complete undirected graph over the data columns (`_initialize_graph`) and
 * the pruning of every edge whose endpoints some conditioning set renders
 * independent (`_find_conditioning_sets`).
 */
module IcSkeleton {
  import opened Wrappers
  import opened Utils
  import opened Graphs

  /**
   * The statistical independence test, as an oracle: Indep(x, y, z, c) tells
   * whether x and y are judged independent given the variables z, with c
   * marking y as categorical.
   */
  type Indep = (Node, Node, seq<Node>, bool) -> bool

  /** The recorded separating sets, keyed by the ordered pair that was tested. */
  type SepSets = map<Edge, seq<Node>>

  /** The graph without nodes or edges. */
  function EmptyGraph(): (r: Graph)
    ensures WellFormed(r) && r.nodes == [] && Skeleton(r) == {}
  {
    Graph([], map[])
  }

  // ---------------------------------------------------------------------
  // _initialize_graph

  /** v is named by one of the pairs. */
  predicate IsEndpoint(pairs: seq<seq<Node>>, v: Node) {
    |pairs| > 0 && (v in pairs[0] || IsEndpoint(pairs[1..], v))
  }

  /** `Graph.add_edge(p[0], p[1])` for every pair p, in order. */
  function AddAll(g: Graph, pairs: seq<seq<Node>>): (r: Graph)
    requires forall i :: 0 <= i < |pairs| ==> |pairs[i]| == 2 && pairs[i][0] != pairs[i][1]
    ensures WellFormed(g) ==> WellFormed(r)
    ensures g.nodes <= r.nodes
    decreases |pairs|
  {
    if |pairs| == 0 then g
    else AddAll(AddEdge(g, pairs[0][0], pairs[0][1]), pairs[1..])
  }

  /** The nodes after `AddAll`: the old ones and every endpoint. */
  lemma {:induction false} AddAllNodes(g: Graph, pairs: seq<seq<Node>>)
    requires forall i :: 0 <= i < |pairs| ==> |pairs[i]| == 2 && pairs[i][0] != pairs[i][1]
    ensures forall v :: v in AddAll(g, pairs).nodes <==> v in g.nodes || IsEndpoint(pairs, v)
    decreases |pairs|
  {
    if |pairs| > 0 {
      var a, b := pairs[0][0], pairs[0][1];
      var h := AddEdge(g, a, b);
      AddAllNodes(h, pairs[1..]);
      NodesStep(g.nodes, h.nodes, AddAll(h, pairs[1..]).nodes, pairs);
    }
  }

  /** One step of `AddAllNodes`: the first pair's endpoints join the nodes. */
  lemma NodesStep(before: seq<Node>, middle: seq<Node>, after: seq<Node>, pairs: seq<seq<Node>>)
    requires |pairs| > 0 && |pairs[0]| == 2
    requires forall v :: v in middle <==> v in before || v == pairs[0][0] || v == pairs[0][1]
    requires forall v :: v in after <==> v in middle || IsEndpoint(pairs[1..], v)
    ensures forall v :: v in after <==> v in before || IsEndpoint(pairs, v)
  {
    assert pairs[0] == [pairs[0][0], pairs[0][1]];
  }

  /** The edges after `AddAll`: the old ones and every listed pair. */
  lemma {:induction false} AddAllEdges(g: Graph, pairs: seq<seq<Node>>)
    requires forall i :: 0 <= i < |pairs| ==> |pairs[i]| == 2 && pairs[i][0] != pairs[i][1]
    ensures var r := AddAll(g, pairs);
            forall e :: e in r.orient <==> e in g.orient || [e.0, e.1] in pairs || [e.1, e.0] in pairs
    decreases |pairs|
  {
    if |pairs| > 0 {
      var a, b := pairs[0][0], pairs[0][1];
      var h := AddEdge(g, a, b);
      AddAllEdges(h, pairs[1..]);
      var r := AddAll(h, pairs[1..]);
      forall e: Edge ensures e in r.orient <==> e in g.orient || [e.0, e.1] in pairs || [e.1, e.0] in pairs {
        PairInPairs(pairs, e.0, e.1);
        PairInPairs(pairs, e.1, e.0);
        assert e in h.orient <==> e in Skeleton(h);
        assert e in g.orient <==> e in Skeleton(g);
      }
    }
  }

  /** `AddAll` leaves every edge it touches undirected and every other edge as it was. */
  lemma {:induction false} AddAllOrientations(g: Graph, pairs: seq<seq<Node>>)
    requires forall i :: 0 <= i < |pairs| ==> |pairs[i]| == 2 && pairs[i][0] != pairs[i][1]
    ensures var r := AddAll(g, pairs);
            forall e :: e in r.orient ==> r.orient[e] == None || (e in g.orient && r.orient[e] == g.orient[e])
    decreases |pairs|
  {
    if |pairs| > 0 {
      var a, b := pairs[0][0], pairs[0][1];
      var h := AddEdge(g, a, b);
      AddAllOrientations(h, pairs[1..]);
      forall e | e in h.orient ensures h.orient[e] == None || (e in g.orient && h.orient[e] == g.orient[e]) {
        if e != (a, b) && e != (b, a) {
          assert e in Skeleton(h);
          assert e in g.orient;
        }
      }
    }
  }

  /** A pair is listed when it is the first pair or listed in the rest. */
  lemma PairInPairs(pairs: seq<seq<Node>>, x: Node, y: Node)
    requires |pairs| > 0 && |pairs[0]| == 2
    ensures [x, y] in pairs <==> (x == pairs[0][0] && y == pairs[0][1]) || [x, y] in pairs[1..]
  {
    assert pairs == [pairs[0]] + pairs[1..];
    assert [x, y] == pairs[0] <==> x == pairs[0][0] && y == pairs[0][1];
  }

  /**
   * `_initialize_graph`: the complete undirected graph on the columns, one
   * `add_edge` per 2-combination of the columns.
   */
  function InitializeGraph(cols: seq<Node>): (r: Graph)
    requires Distinct(cols)
    ensures WellFormed(r)
    ensures forall x, y :: Adjacent(r, x, y) <==> x in cols && y in cols && x != y
    ensures forall e :: e in r.orient ==> r.orient[e] == None
    ensures forall v :: v in r.nodes <==> v in cols && |cols| >= 2
    ensures |cols| >= 2 ==> r.nodes == cols
  {
    var pairs := GetAllPossibleSets(cols, Some(2), false);
    GetAllPossibleSetsShape(cols, Some(2), false);
    assert forall i :: 0 <= i < |pairs| ==> |pairs[i]| == 2 && pairs[i][0] != pairs[i][1] by {
      forall i | 0 <= i < |pairs| ensures |pairs[i]| == 2 && pairs[i][0] != pairs[i][1] {
        SubsequenceDistinct(pairs[i], cols);
      }
    }
    var r := AddAll(EmptyGraph(), pairs);
    AddAllNodes(EmptyGraph(), pairs);
    AddAllEdges(EmptyGraph(), pairs);
    AddAllOrientations(EmptyGraph(), pairs);
    assert forall x, y :: Adjacent(r, x, y) <==> x in cols && y in cols && x != y by {
      forall x, y ensures Adjacent(r, x, y) <==> x in cols && y in cols && x != y {
        PairListed(cols, pairs, x, y);
      }
    }
    assert forall v :: v in r.nodes <==> v in cols && |cols| >= 2 by {
      forall v ensures v in r.nodes <==> v in cols && |cols| >= 2 {
        EndpointListed(cols, pairs, v);
      }
    }
    assert |cols| >= 2 ==> r.nodes == cols by {
      if |cols| >= 2 {
        InitialNodeOrder(cols);
      }
    }
    r
  }

  /**
   * The nodes enter in column order: the pairs (c0, c1), (c0, c2), ...
   * come first and add c0 and every other column in turn, and the
   * remaining pairs name only columns already present.
   */
  lemma InitialNodeOrder(cols: seq<Node>)
    requires Distinct(cols) && |cols| >= 2 && PairsOk(GetAllPossibleSets(cols, Some(2), false))
    ensures AddAll(EmptyGraph(), GetAllPossibleSets(cols, Some(2), false)).nodes == cols
  {
    var head := PrependAll(cols[0], Combinations(cols[1..], 1));
    var tail := Combinations(cols[1..], 2);
    assert GetAllPossibleSets(cols, Some(2), false) == head + tail;
    HeadAddsColumns(cols);
    TailPairsShape(cols);
    AddAllConcat(EmptyGraph(), head, tail);
    AddAllKeepsNodes(AddAll(EmptyGraph(), head), tail);
  }

  /** The pairs (c0, c1), (c0, c2), ... add the columns in order. */
  lemma HeadAddsColumns(cols: seq<Node>)
    requires Distinct(cols) && |cols| >= 2
    ensures var head := PrependAll(cols[0], Combinations(cols[1..], 1));
            PairsOk(head) && AddAll(EmptyGraph(), head).nodes == cols
  {
    var head := PrependAll(cols[0], Combinations(cols[1..], 1));
    HeadPairs(cols);
    var h := AddEdge(EmptyGraph(), cols[0], cols[1]);
    AddAllUnfold(EmptyGraph(), head);
    StarFromHead(cols, h, head);
    AddAllStar(h, cols[0], cols[1..][1..], head[1..]);
    AppendSplit([cols[0]], cols[1..]);
  }

  /** The head pairs are (c0, c_i) for every later column, in order. */
  lemma HeadPairs(cols: seq<Node>)
    requires Distinct(cols) && |cols| >= 2
    ensures var head := PrependAll(cols[0], Combinations(cols[1..], 1));
            && |head| == |cols| - 1
            && (forall i :: 0 <= i < |head| ==> head[i] == [cols[0], cols[1..][i]])
            && PairsOk(head)
            && AddEdge(EmptyGraph(), cols[0], cols[1]).nodes == [cols[0], cols[1]]
  {
    CombinationsOne(cols[1..]);
    HeadNotInTail(cols);
  }

  /** After the first pair the remaining pairs of the head are a star on c0. */
  lemma StarFromHead(cols: seq<Node>, h: Graph, head: seq<seq<Node>>)
    requires Distinct(cols) && |cols| >= 2 && h.nodes == [cols[0], cols[1]]
    requires |head| == |cols| - 1 && forall i :: 0 <= i < |head| ==> head[i] == [cols[0], cols[1..][i]]
    ensures StarReady(h, cols[0], cols[1..][1..], head[1..])
  {
    var t := cols[1..];
    forall i | 0 <= i < |t| - 1 ensures t[1..][i] !in h.nodes && t[1..][i] != cols[0] {
      assert t[1..][i] == cols[i + 2];
    }
    assert Distinct(t[1..]);
  }

  /** The 2-combinations of the columns after the first join two different columns. */
  lemma TailPairsShape(cols: seq<Node>)
    requires Distinct(cols) && |cols| >= 1
    ensures var tail := Combinations(cols[1..], 2);
            PairsOk(tail) && forall i :: 0 <= i < |tail| ==> tail[i][0] in cols && tail[i][1] in cols
  {
    var t := cols[1..];
    CombinationsShape(t, 2);
    forall i | 0 <= i < |Combinations(t, 2)|
      ensures var c := Combinations(t, 2)[i]; |c| == 2 && c[0] != c[1] && c[0] in cols && c[1] in cols
    {
      var c := Combinations(t, 2)[i];
      SubsequenceDistinct(c, t);
      SubsequenceElems(c, t);
      assert c[0] in c && c[1] in c;
    }
  }

  /** The 1-combinations are the singletons, in order. */
  lemma {:induction false} CombinationsOne(t: seq<Node>)
    ensures |Combinations(t, 1)| == |t|
    ensures forall i :: 0 <= i < |t| ==> Combinations(t, 1)[i] == [t[i]]
    decreases |t|
  {
    if |t| > 0 {
      CombinationsOne(t[1..]);
      SingletonsStep(t);
    }
  }

  /** One step of `CombinationsOne`: the singleton of the head comes first. */
  lemma SingletonsStep(t: seq<Node>)
    requires |t| > 0
    requires |Combinations(t[1..], 1)| == |t| - 1
    requires forall i :: 0 <= i < |t| - 1 ==> Combinations(t[1..], 1)[i] == [t[1..][i]]
    ensures |Combinations(t, 1)| == |t|
    ensures forall i :: 0 <= i < |t| ==> Combinations(t, 1)[i] == [t[i]]
  {
    var head := PrependAll(t[0], Combinations(t[1..], 0));
    var rest := Combinations(t[1..], 1);
    assert Combinations(t, 1) == head + rest;
    forall i | 0 <= i < |t| ensures Combinations(t, 1)[i] == [t[i]] {
      if i == 0 {
        assert head[0] == [t[0]] + [];
      } else {
        assert t[1..][i - 1] == t[i];
      }
    }
  }

  /** The pairs are (x, t[i]) for the new, distinct nodes t, and x is already a node. */
  predicate StarReady(g: Graph, x: Node, t: seq<Node>, pairs: seq<seq<Node>>) {
    && |pairs| == |t| && (forall i :: 0 <= i < |pairs| ==> pairs[i] == [x, t[i]])
    && x in g.nodes && Distinct(t)
    && forall i :: 0 <= i < |t| ==> t[i] !in g.nodes && t[i] != x
  }

  /** Adding the pairs (x, t0), (x, t1), ... appends the new nodes t in order. */
  lemma {:induction false} AddAllStar(g: Graph, x: Node, t: seq<Node>, pairs: seq<seq<Node>>)
    requires StarReady(g, x, t, pairs)
    ensures AddAll(g, pairs).nodes == g.nodes + t
    decreases |t|
  {
    if |t| > 0 {
      StarShrinks(g, x, t, pairs);
      AddAllStar(AddEdge(g, x, t[0]), x, t[1..], pairs[1..]);
      StarStep(g, x, t, pairs);
    }
  }

  /** After the first pair the rest of the star is ready on the grown graph. */
  lemma StarShrinks(g: Graph, x: Node, t: seq<Node>, pairs: seq<seq<Node>>)
    requires StarReady(g, x, t, pairs) && |t| > 0
    ensures StarReady(AddEdge(g, x, t[0]), x, t[1..], pairs[1..])
  {
    var h := AddEdge(g, x, t[0]);
    assert h.nodes == g.nodes + [t[0]];
    assert forall i :: 0 <= i < |t| - 1 ==> t[1..][i] != t[0];
  }

  /** One step of `AddAllStar`: the first pair appends t[0]. */
  lemma StarStep(g: Graph, x: Node, t: seq<Node>, pairs: seq<seq<Node>>)
    requires StarReady(g, x, t, pairs) && |t| > 0
    requires AddAll(AddEdge(g, x, t[0]), pairs[1..]).nodes == AddEdge(g, x, t[0]).nodes + t[1..]
    ensures AddAll(g, pairs).nodes == g.nodes + t
  {
    AddAllUnfold(g, pairs);
    AddEdgeAppends(g, x, t[0]);
    AppendSplit(g.nodes, t);
  }

  /** The first step of `AddAll`. */
  lemma AddAllUnfold(g: Graph, pairs: seq<seq<Node>>)
    requires PairsOk(pairs) && |pairs| > 0
    ensures AddAll(g, pairs) == AddAll(AddEdge(g, pairs[0][0], pairs[0][1]), pairs[1..])
  {
  }

  /** An edge from a present node to a new one appends the new node. */
  lemma AddEdgeAppends(g: Graph, x: Node, v: Node)
    requires x in g.nodes && v !in g.nodes && x != v
    ensures AddEdge(g, x, v).nodes == g.nodes + [v]
  {
  }

  lemma AppendSplit(s: seq<Node>, t: seq<Node>)
    requires |t| > 0
    ensures s + [t[0]] + t[1..] == s + t
  {
    assert [t[0]] + t[1..] == t;
  }

  /** Each pair names two different nodes. */
  predicate PairsOk(pairs: seq<seq<Node>>) {
    forall i :: 0 <= i < |pairs| ==> |pairs[i]| == 2 && pairs[i][0] != pairs[i][1]
  }

  /** Adding the pairs of a + b is adding those of a, then those of b. */
  lemma {:induction false} AddAllConcat(g: Graph, a: seq<seq<Node>>, b: seq<seq<Node>>)
    requires PairsOk(a) && PairsOk(b)
    ensures PairsOk(a + b) && AddAll(g, a + b) == AddAll(AddAll(g, a), b)
    decreases |a|
  {
    if |a| > 0 {
      ConcatShrinks(a, b);
      AddAllConcat(AddEdge(g, a[0][0], a[0][1]), a[1..], b);
      ConcatStep(g, a, b);
    } else {
      assert a + b == b;
    }
  }

  /** The tail of a well-formed list of pairs is well formed. */
  lemma ConcatShrinks(a: seq<seq<Node>>, b: seq<seq<Node>>)
    requires PairsOk(a) && |a| > 0
    ensures PairsOk(a[1..])
  {
  }

  /** One step of `AddAllConcat`: a + b starts with the first pair of a. */
  lemma ConcatStep(g: Graph, a: seq<seq<Node>>, b: seq<seq<Node>>)
    requires PairsOk(a) && PairsOk(b) && |a| > 0
    requires PairsOk(a[1..] + b)
    requires AddAll(AddEdge(g, a[0][0], a[0][1]), a[1..] + b) == AddAll(AddAll(AddEdge(g, a[0][0], a[0][1]), a[1..]), b)
    ensures PairsOk(a + b) && AddAll(g, a + b) == AddAll(AddAll(g, a), b)
  {
    ConcatHead(a, b);
    AddAllUnfold(g, a + b);
    AddAllUnfold(g, a);
  }

  lemma ConcatHead(a: seq<seq<Node>>, b: seq<seq<Node>>)
    requires PairsOk(a) && PairsOk(b) && |a| > 0
    ensures PairsOk(a + b) && (a + b)[0] == a[0] && (a + b)[1..] == a[1..] + b
  {
  }

  /** Pairs of nodes already present add no node. */
  lemma {:induction false} AddAllKeepsNodes(g: Graph, pairs: seq<seq<Node>>)
    requires forall i :: 0 <= i < |pairs| ==> |pairs[i]| == 2 && pairs[i][0] != pairs[i][1]
    requires forall i :: 0 <= i < |pairs| ==> pairs[i][0] in g.nodes && pairs[i][1] in g.nodes
    ensures AddAll(g, pairs).nodes == g.nodes
    decreases |pairs|
  {
    if |pairs| > 0 {
      var h := AddEdge(g, pairs[0][0], pairs[0][1]);
      assert h.nodes == g.nodes;
      AddAllKeepsNodes(h, pairs[1..]);
    }
  }

  /** Two different columns form a 2-combination in exactly one of their two orders. */
  lemma PairListed(cols: seq<Node>, pairs: seq<seq<Node>>, x: Node, y: Node)
    requires Distinct(cols) && pairs == GetAllPossibleSets(cols, Some(2), false)
    ensures [x, y] in pairs || [y, x] in pairs <==> x in cols && y in cols && x != y
  {
    GetAllPossibleSetsShape(cols, Some(2), false);
    if [x, y] in pairs || [y, x] in pairs {
      var c := if [x, y] in pairs then [x, y] else [y, x];
      var i :| 0 <= i < |pairs| && pairs[i] == c;
      SubsequenceElems(c, cols);
      SubsequenceDistinct(c, cols);
      assert c[0] in c && c[1] in c;
    }
    if x in cols && y in cols && x != y {
      var i :| 0 <= i < |cols| && cols[i] == x;
      var j :| 0 <= j < |cols| && cols[j] == y;
      if i < j {
        PairIsSubsequence(cols, i, j);
        CombinationsComplete(cols, 2, [x, y]);
      } else {
        PairIsSubsequence(cols, j, i);
        CombinationsComplete(cols, 2, [y, x]);
      }
    }
  }

  /** With at least two columns every column is an endpoint of some 2-combination. */
  lemma EndpointListed(cols: seq<Node>, pairs: seq<seq<Node>>, v: Node)
    requires Distinct(cols) && pairs == GetAllPossibleSets(cols, Some(2), false)
    ensures IsEndpoint(pairs, v) <==> v in cols && |cols| >= 2
  {
    GetAllPossibleSetsShape(cols, Some(2), false);
    if IsEndpoint(pairs, v) {
      var i := EndpointSource(pairs, v);
      SubsequenceElems(pairs[i], cols);
      SubsequenceLength(pairs[i], cols);
    }
    if v in cols && |cols| >= 2 {
      var w := if v == cols[0] then cols[1] else cols[0];
      assert w in cols && w != v;
      PairListed(cols, pairs, v, w);
      var c := if [v, w] in pairs then [v, w] else [w, v];
      var i :| 0 <= i < |pairs| && pairs[i] == c;
      EndpointsContain(pairs, i, v);
    }
  }

  /** The position of a pair that names v. */
  lemma {:induction false} EndpointSource(pairs: seq<seq<Node>>, v: Node) returns (i: nat)
    requires IsEndpoint(pairs, v)
    ensures i < |pairs| && v in pairs[i]
  {
    if v in pairs[0] {
      i := 0;
    } else {
      var j := EndpointSource(pairs[1..], v);
      i := j + 1;
    }
  }

  /** Every node of a listed pair is an endpoint. */
  lemma {:induction false} EndpointsContain(pairs: seq<seq<Node>>, i: nat, v: Node)
    requires i < |pairs| && v in pairs[i]
    ensures IsEndpoint(pairs, v)
  {
    if i > 0 {
      assert pairs[1..][i - 1] == pairs[i];
      EndpointsContain(pairs[1..], i - 1, v);
    }
  }

  // ---------------------------------------------------------------------
  // _find_conditioning_sets

  /** `[n for n in nodes if n not in [a, b]]`: the nodes that may be conditioned on. */
  function Others(nodes: seq<Node>, a: Node, b: Node): (r: seq<Node>)
    ensures forall n :: n in r <==> n in nodes && n != a && n != b
    ensures IsSubsequence(r, nodes)
  {
    Filter(nodes, n => n != a && n != b)
  }

  /** The position of the first set judged independent, or |sets| when there is none. */
  function FirstIndependent(test: Indep, a: Node, b: Node, sets: seq<seq<Node>>): (k: nat)
    ensures k <= |sets|
    ensures k < |sets| ==> test(a, b, sets[k], false)
  {
    if |sets| == 0 then 0
    else if test(a, b, sets[0], false) then 0
    else 1 + FirstIndependent(test, a, b, sets[1..])
  }

  /** No set before the first independent one is judged independent. */
  lemma {:induction false} NoneBeforeFirst(test: Indep, a: Node, b: Node, sets: seq<seq<Node>>, j: nat)
    requires j < FirstIndependent(test, a, b, sets)
    ensures !test(a, b, sets[j], false)
  {
    if j > 0 {
      NoneBeforeFirst(test, a, b, sets[1..], j - 1);
    }
  }

  /**
   * The search of `_find_conditioning_sets` for one edge a–b: the sizes
   * q, q + 1, ... up to |others| in turn, and within a size the
   * combinations in order, stopping at the first set judged independent.
   */
  function SeparatingSet(test: Indep, a: Node, b: Node, others: seq<Node>, q: nat): (r: Option<seq<Node>>)
    ensures r.Some? ==> q <= |r.value| && IsSubsequence(r.value, others) && test(a, b, r.value, false)
    decreases |others| + 1 - q
  {
    if q > |others| then None
    else
      var sets := GetAllPossibleSets(others, Some(q), false);
      var k := FirstIndependent(test, a, b, sets);
      GetAllPossibleSetsShape(others, Some(q), false);
      if k < |sets| then Some(sets[k]) else SeparatingSet(test, a, b, others, q + 1)
  }

  /** One round of the size loop: the combinations of size q, then the larger sizes. */
  lemma SeparatingSetUnfold(test: Indep, a: Node, b: Node, others: seq<Node>, q: nat)
    requires q <= |others|
    ensures var tier := Combinations(others, q);
            var k := FirstIndependent(test, a, b, tier);
            SeparatingSet(test, a, b, others, q) ==
              if k < |tier| then Some(tier[k]) else SeparatingSet(test, a, b, others, q + 1)
  {
  }

  /** When no combination of size q is judged independent, no set of q nodes is. */
  lemma TierHasNone(test: Indep, a: Node, b: Node, others: seq<Node>, q: nat, z: seq<Node>)
    requires FirstIndependent(test, a, b, Combinations(others, q)) == |Combinations(others, q)|
    requires |z| == q && IsSubsequence(z, others)
    ensures !test(a, b, z, false)
  {
    var tier := Combinations(others, q);
    CombinationsComplete(others, q, z);
    var j :| 0 <= j < |tier| && tier[j] == z;
    NoneBeforeFirst(test, a, b, tier, j);
  }

  /** A subsequence is never longer than its sequence. */
  lemma NoLongSubsequence(others: seq<Node>, q: nat)
    requires q > |others|
    ensures forall z :: q <= |z| ==> !IsSubsequence(z, others)
  {
    forall z | IsSubsequence(z, others) ensures |z| < q {
      SubsequenceLength(z, others);
    }
  }

  /** No set of q nodes, and none larger, is judged independent. */
  lemma NoneInTierOrAbove(test: Indep, a: Node, b: Node, others: seq<Node>, q: nat)
    requires FirstIndependent(test, a, b, Combinations(others, q)) == |Combinations(others, q)|
    requires forall z :: q + 1 <= |z| && IsSubsequence(z, others) ==> !test(a, b, z, false)
    ensures forall z :: q <= |z| && IsSubsequence(z, others) ==> !test(a, b, z, false)
  {
    forall z | q <= |z| && IsSubsequence(z, others) ensures !test(a, b, z, false) {
      if |z| == q {
        TierHasNone(test, a, b, others, q, z);
      }
    }
  }

  /** Nothing is found exactly when no combination of size at least q is judged independent. */
  lemma {:induction false} SeparatingSetNone(test: Indep, a: Node, b: Node, others: seq<Node>, q: nat)
    ensures SeparatingSet(test, a, b, others, q).None? <==>
            forall z :: q <= |z| && IsSubsequence(z, others) ==> !test(a, b, z, false)
    decreases |others| + 1 - q
  {
    if q > |others| {
      NoLongSubsequence(others, q);
    } else {
      var tier := Combinations(others, q);
      var k := FirstIndependent(test, a, b, tier);
      SeparatingSetUnfold(test, a, b, others, q);
      SeparatingSetNone(test, a, b, others, q + 1);
      if k == |tier| && SeparatingSet(test, a, b, others, q + 1).None? {
        NoneInTierOrAbove(test, a, b, others, q);
      } else if k < |tier| {
        assert q <= |tier[k]| && IsSubsequence(tier[k], others) && test(a, b, tier[k], false);
      }
    }
  }

  /**
   * The search prefers smaller sets: no set smaller than the one found, and
   * of at least q elements, is judged independent.
   */
  lemma {:induction false} SeparatingSetSmallest(test: Indep, a: Node, b: Node, others: seq<Node>, q: nat, z: seq<Node>)
    requires SeparatingSet(test, a, b, others, q).Some?
    requires q <= |z| < |SeparatingSet(test, a, b, others, q).value| && IsSubsequence(z, others)
    ensures !test(a, b, z, false)
    decreases |others| + 1 - q
  {
    SizeQTier(test, a, b, others, q);
    if |z| == q {
      SizeQAbsent(test, a, b, others, q, z);
    } else {
      SeparatingSetSmallest(test, a, b, others, q + 1, z);
    }
  }

  /** A hit of the search from q has q elements, or the search from q + 1 finds the same set. */
  lemma SizeQTier(test: Indep, a: Node, b: Node, others: seq<Node>, q: nat)
    requires SeparatingSet(test, a, b, others, q).Some?
    ensures q <= |others|
    ensures |SeparatingSet(test, a, b, others, q).value| == q ||
            SeparatingSet(test, a, b, others, q) == SeparatingSet(test, a, b, others, q + 1)
  {
    SeparatingSetUnfold(test, a, b, others, q);
    CombinationsSizes(others, q);
  }

  /** When the search from q finds a larger set, no set of exactly q nodes is judged independent. */
  lemma SizeQAbsent(test: Indep, a: Node, b: Node, others: seq<Node>, q: nat, z: seq<Node>)
    requires SeparatingSet(test, a, b, others, q).Some? && |SeparatingSet(test, a, b, others, q).value| > q
    requires |z| == q && IsSubsequence(z, others)
    ensures !test(a, b, z, false)
  {
    var tier := Combinations(others, q);
    SeparatingSetUnfold(test, a, b, others, q);
    CombinationsSizes(others, q);
    assert FirstIndependent(test, a, b, tier) == |tier|;
    TierHasNone(test, a, b, others, q, z);
  }

  /** `FirstIndependent` on a concatenation looks in the second part only when the first has no hit. */
  lemma {:induction false} FirstIndependentConcat(test: Indep, a: Node, b: Node, s: seq<seq<Node>>, t: seq<seq<Node>>)
    ensures FirstIndependent(test, a, b, s + t) ==
            (if FirstIndependent(test, a, b, s) < |s| then FirstIndependent(test, a, b, s)
             else |s| + FirstIndependent(test, a, b, t))
  {
    if |s| > 0 {
      assert (s + t)[0] == s[0];
      assert (s + t)[1..] == s[1..] + t;
      FirstIndependentConcat(test, a, b, s[1..], t);
    } else {
      assert s + t == t;
    }
  }

  /** The first set of `sets` judged independent, if there is one. */
  function FirstFound(test: Indep, a: Node, b: Node, sets: seq<seq<Node>>): (r: Option<seq<Node>>)
    ensures r.Some? ==> test(a, b, r.value, false)
  {
    var k := FirstIndependent(test, a, b, sets);
    if k < |sets| then Some(sets[k]) else None
  }

  /**
   * The nested size-then-combination search finds exactly the first set
   * judged independent in the order of `get_all_possible_sets(others)`.
   */
  lemma SeparatingSetIsFirst(test: Indep, a: Node, b: Node, others: seq<Node>, q: nat)
    ensures SeparatingSet(test, a, b, others, q) == FirstFound(test, a, b, AllSizes(others, q))
  {
    IsFirstFrom(test, a, b, others, q);
  }

  /** The size-by-size search from q on agrees with the first hit in the listing from size q on. */
  predicate SearchesAgree(test: Indep, a: Node, b: Node, others: seq<Node>, q: nat) {
    SeparatingSet(test, a, b, others, q) == FirstFound(test, a, b, AllSizes(others, q))
  }

  /** `SeparatingSetIsFirst` for every starting size, by induction on the sizes left. */
  lemma {:induction false} IsFirstFrom(test: Indep, a: Node, b: Node, others: seq<Node>, q: nat)
    ensures SearchesAgree(test, a, b, others, q)
    decreases |others| + 1 - q
  {
    if q <= |others| {
      IsFirstFrom(test, a, b, others, q + 1);
    }
    IsFirstStep(test, a, b, others, q);
  }

  /**
   * The step of `IsFirstFrom`: beyond |others| nothing is searched and
   * nothing is listed; otherwise both searches look at the size-q tier first
   * and agree on the larger sizes.
   */
  lemma IsFirstStep(test: Indep, a: Node, b: Node, others: seq<Node>, q: nat)
    requires q <= |others| ==> SearchesAgree(test, a, b, others, q + 1)
    ensures SearchesAgree(test, a, b, others, q)
  {
    if q > |others| {
      assert AllSizes(others, q) == [];
    } else {
      SeparatingSetUnfold(test, a, b, others, q);
      FirstFoundUnfold(test, a, b, others, q);
    }
  }

  /** The first hit among the sizes from q on is the first of size q, or else the first of the larger sizes. */
  lemma FirstFoundUnfold(test: Indep, a: Node, b: Node, others: seq<Node>, q: nat)
    requires q <= |others|
    ensures var tier := Combinations(others, q);
            var k := FirstIndependent(test, a, b, tier);
            FirstFound(test, a, b, AllSizes(others, q)) ==
              if k < |tier| then Some(tier[k]) else FirstFound(test, a, b, AllSizes(others, q + 1))
  {
    var tier := Combinations(others, q);
    var rest := AllSizes(others, q + 1);
    FirstIndependentConcat(test, a, b, tier, rest);
    AllSizesUnfold(others, q);
    FirstOfConcat(tier, rest, FirstIndependent(test, a, b, tier), FirstIndependent(test, a, b, rest),
                  FirstIndependent(test, a, b, tier + rest));
  }

  /** The k-th element of a concatenation, on plain values. */
  lemma FirstOfConcat(tier: seq<seq<Node>>, rest: seq<seq<Node>>, i: nat, j: nat, k: nat)
    requires i <= |tier| && j <= |rest|
    requires k == if i < |tier| then i else |tier| + j
    ensures (if k < |tier + rest| then Some((tier + rest)[k]) else None) ==
            if i < |tier| then Some(tier[i]) else if j < |rest| then Some(rest[j]) else None
  {
  }

  /** The separating set found for a–b never contains a or b. */
  lemma SeparatingSetAvoidsEndpoints(test: Indep, nodes: seq<Node>, a: Node, b: Node)
    requires SeparatingSet(test, a, b, Others(nodes, a, b), 1).Some?
    ensures var z := SeparatingSet(test, a, b, Others(nodes, a, b), 1).value;
            z != [] && a !in z && b !in z && forall n :: n in z ==> n in nodes
  {
    var z := SeparatingSet(test, a, b, Others(nodes, a, b), 1).value;
    SubsequenceElems(z, Others(nodes, a, b));
  }

  /** The separating set `_find_conditioning_sets` looks for on the edge a–b among the nodes. */
  function Separation(test: Indep, nodes: seq<Node>, a: Node, b: Node): (r: Option<seq<Node>>)
    ensures r.Some? ==> r.value != [] && a !in r.value && b !in r.value && test(a, b, r.value, false)
    ensures r.Some? ==> forall n :: n in r.value ==> n in nodes
  {
    var r := SeparatingSet(test, a, b, Others(nodes, a, b), 1);
    if r.Some? then
      SeparatingSetAvoidsEndpoints(test, nodes, a, b);
      r
    else r
  }

  /**
   * The search for a–b fails exactly when the test rejects every non-empty
   * subset of the other nodes; when it succeeds, its set is the first one the
   * test accepts in the listing by size, then by position.
   */
  lemma SeparationIsFirstFound(test: Indep, nodes: seq<Node>, a: Node, b: Node)
    ensures Separation(test, nodes, a, b).None? <==>
            forall z :: 1 <= |z| && IsSubsequence(z, Others(nodes, a, b)) ==> !test(a, b, z, false)
    ensures Separation(test, nodes, a, b) == FirstFound(test, a, b, GetAllPossibleSets(Others(nodes, a, b), None, false))
  {
    SeparatingSetNone(test, a, b, Others(nodes, a, b), 1);
    SeparatingSetIsFirst(test, a, b, Others(nodes, a, b), 1);
  }

  /** The edge list of networkx for a graph whose adjacency follows node order: adjacent 2-combinations. */
  function EdgeList(g: Graph): (r: seq<seq<Node>>)
    ensures forall i :: 0 <= i < |r| ==> |r[i]| == 2 && Adjacent(g, r[i][0], r[i][1])
    ensures forall c :: c in r ==> IsSubsequence(c, g.nodes)
  {
    var pairs := GetAllPossibleSets(g.nodes, Some(2), false);
    GetAllPossibleSetsShape(g.nodes, Some(2), false);
    var r := Filter(pairs, c => |c| == 2 && Adjacent(g, c[0], c[1]));
    assert forall c :: c in r ==> IsSubsequence(c, g.nodes) by {
      forall c | c in r ensures IsSubsequence(c, g.nodes) {
        var i :| 0 <= i < |pairs| && pairs[i] == c;
      }
    }
    assert forall i :: 0 <= i < |r| ==> |r[i]| == 2 && Adjacent(g, r[i][0], r[i][1]) by {
      forall i | 0 <= i < |r| ensures |r[i]| == 2 && Adjacent(g, r[i][0], r[i][1]) {
        assert r[i] in r;
      }
    }
    r
  }

  /** Every edge of a well-formed graph is listed in exactly one of its two orders. */
  lemma EdgeListed(g: Graph, x: Node, y: Node)
    requires WellFormed(g) && Adjacent(g, x, y)
    ensures [x, y] in EdgeList(g) || [y, x] in EdgeList(g)
    ensures !([x, y] in EdgeList(g) && [y, x] in EdgeList(g))
  {
    var pairs := GetAllPossibleSets(g.nodes, Some(2), false);
    PairListed(g.nodes, pairs, x, y);
    assert (y, x) in g.orient;
    if [x, y] in EdgeList(g) && [y, x] in EdgeList(g) {
      PairOrderUnique(x, y, g.nodes);
      assert false;
    }
  }

  /**
   * On the complete graph over the columns, a pair of columns is tested in
   * column order: [x, y] is listed exactly when x comes before y.
   */
  lemma PairTested(cols: seq<Node>, x: Node, y: Node)
    requires Distinct(cols) && IsSubsequence([x, y], cols)
    ensures var g0 := InitializeGraph(cols);
            g0.nodes == cols && [x, y] in EdgeList(g0) && [y, x] !in EdgeList(g0)
  {
    var g0 := InitializeGraph(cols);
    PairOfColumns(cols, x, y);
    EdgeListed(g0, x, y);
    PairOrderUnique(x, y, cols);
  }

  /** An ordered pair drawn from distinct columns joins two different columns. */
  lemma PairOfColumns(cols: seq<Node>, x: Node, y: Node)
    requires Distinct(cols) && IsSubsequence([x, y], cols)
    ensures |cols| >= 2 && x in cols && y in cols && x != y
  {
    SubsequenceLength([x, y], cols);
    SubsequenceElems([x, y], cols);
    SubsequenceDistinct([x, y], cols);
    assert x in [x, y] && y in [x, y];
  }

  /** The search run for one tested pair. */
  type Search = (Node, Node) -> Option<seq<Node>>

  /** The search `_find_conditioning_sets` runs for a pair, over a fixed node list. */
  function Searcher(test: Indep, nodes: seq<Node>): (r: Search)
    ensures forall x, y :: r(x, y) == Separation(test, nodes, x, y)
  {
    (x, y) => Separation(test, nodes, x, y)
  }

  /** The pair [x, y] is tested and its search succeeds. */
  predicate Pruned(find: Search, pairs: seq<seq<Node>>, x: Node, y: Node) {
    [x, y] in pairs && find(x, y).Some?
  }

  /**
   * The loop of `_find_conditioning_sets` over the pairs: each pair's search
   * runs on the unchanged node list; a hit records the set under the pair
   * and removes the edge.
   */
  function PruneAll(find: Search, g: Graph, pairs: seq<seq<Node>>, sep: SepSets): (r: (Graph, SepSets))
    requires forall i :: 0 <= i < |pairs| ==> |pairs[i]| == 2
    ensures WellFormed(g) ==> WellFormed(r.0)
    ensures r.0.nodes == g.nodes
    decreases |pairs|
  {
    if |pairs| == 0 then (g, sep)
    else
      var a, b := pairs[0][0], pairs[0][1];
      match find(a, b)
      case Some(z) => PruneAll(find, DeleteEdge(g, a, b), pairs[1..], sep[(a, b) := z])
      case None => PruneAll(find, g, pairs[1..], sep)
  }

  /** A pair is pruned when it is the first pair and its search succeeds, or it is pruned later. */
  lemma PrunedStep(find: Search, pairs: seq<seq<Node>>, x: Node, y: Node)
    requires |pairs| > 0 && |pairs[0]| == 2
    ensures Pruned(find, pairs, x, y) <==>
            || (x == pairs[0][0] && y == pairs[0][1] && find(x, y).Some?)
            || Pruned(find, pairs[1..], x, y)
  {
    PairInPairs(pairs, x, y);
  }

  /** Pruning removes exactly the edges pruned in either order and keeps the orientation of the rest. */
  lemma {:induction false} PruneAllEdges(find: Search, g: Graph, pairs: seq<seq<Node>>, sep: SepSets)
    requires forall i :: 0 <= i < |pairs| ==> |pairs[i]| == 2
    ensures var r := PruneAll(find, g, pairs, sep).0;
            forall e: Edge :: e in r.orient <==>
              e in g.orient && !Pruned(find, pairs, e.0, e.1) && !Pruned(find, pairs, e.1, e.0)
    ensures var r := PruneAll(find, g, pairs, sep).0;
            forall e :: e in r.orient ==> r.orient[e] == g.orient[e]
    decreases |pairs|
  {
    if |pairs| > 0 {
      var a, b := pairs[0][0], pairs[0][1];
      var z := find(a, b);
      var h := if z.Some? then DeleteEdge(g, a, b) else g;
      var sep' := if z.Some? then sep[(a, b) := z.value] else sep;
      assert PruneAll(find, g, pairs, sep) == PruneAll(find, h, pairs[1..], sep');
      PruneAllEdges(find, h, pairs[1..], sep');
      var r := PruneAll(find, h, pairs[1..], sep').0;
      forall e: Edge ensures e in r.orient <==>
          e in g.orient && !Pruned(find, pairs, e.0, e.1) && !Pruned(find, pairs, e.1, e.0) {
        PrunedStep(find, pairs, e.0, e.1);
        PrunedStep(find, pairs, e.1, e.0);
      }
    }
  }

  /** Pruning records the set found under every pruned pair and keeps the other entries. */
  lemma {:induction false} PruneAllSepSets(find: Search, g: Graph, pairs: seq<seq<Node>>, sep: SepSets)
    requires forall i :: 0 <= i < |pairs| ==> |pairs[i]| == 2
    ensures var r := PruneAll(find, g, pairs, sep).1;
            forall e: Edge :: e in r <==> e in sep || Pruned(find, pairs, e.0, e.1)
    ensures var r := PruneAll(find, g, pairs, sep).1;
            forall e: Edge :: e in r ==>
              r[e] == if Pruned(find, pairs, e.0, e.1) then find(e.0, e.1).value else sep[e]
    decreases |pairs|
  {
    if |pairs| > 0 {
      var a, b := pairs[0][0], pairs[0][1];
      var z := find(a, b);
      var h := if z.Some? then DeleteEdge(g, a, b) else g;
      var sep' := if z.Some? then sep[(a, b) := z.value] else sep;
      assert PruneAll(find, g, pairs, sep) == PruneAll(find, h, pairs[1..], sep');
      PruneAllSepSets(find, h, pairs[1..], sep');
      var r := PruneAll(find, h, pairs[1..], sep').1;
      forall e: Edge ensures e in r <==> e in sep || Pruned(find, pairs, e.0, e.1) {
        PrunedStep(find, pairs, e.0, e.1);
      }
      forall e: Edge | e in r ensures
          r[e] == if Pruned(find, pairs, e.0, e.1) then find(e.0, e.1).value else sep[e] {
        PrunedStep(find, pairs, e.0, e.1);
      }
    }
  }

  /**
   * `_find_conditioning_sets`: prune every edge of the edge list whose
   * search succeeds, recording the set found under the tested pair. The
   * nodes stay, only edges go, and the remaining edges keep their
   * orientation.
   */
  function FindConditioningSets(test: Indep, g: Graph): (r: (Graph, SepSets))
    requires WellFormed(g)
    ensures WellFormed(r.0) && r.0.nodes == g.nodes
    ensures forall e :: e in r.0.orient ==> e in g.orient && r.0.orient[e] == g.orient[e]
    ensures forall e :: e in r.1 <==> [e.0, e.1] in EdgeList(g) && Separation(test, g.nodes, e.0, e.1).Some?
    ensures forall e :: e in r.1 ==> r.1[e] == Separation(test, g.nodes, e.0, e.1).value
  {
    var pairs := EdgeList(g);
    PruneAllEdges(Searcher(test, g.nodes), g, pairs, map[]);
    PruneAllSepSets(Searcher(test, g.nodes), g, pairs, map[]);
    PruneAll(Searcher(test, g.nodes), g, pairs, map[])
  }

  /**
   * Pruning keeps exactly the edges whose search fails, in the order the
   * edge list tests them.
   */
  lemma PrunedIffSeparated(test: Indep, g: Graph, x: Node, y: Node)
    requires WellFormed(g) && Adjacent(g, x, y)
    ensures var r := FindConditioningSets(test, g);
            && ([x, y] in EdgeList(g) ==> (Adjacent(r.0, x, y) <==> Separation(test, g.nodes, x, y).None?))
            && ([y, x] in EdgeList(g) ==> (Adjacent(r.0, x, y) <==> Separation(test, g.nodes, y, x).None?))
  {
    EdgeListed(g, x, y);
    PruneAllEdges(Searcher(test, g.nodes), g, EdgeList(g), map[]);
  }

  /**
   * After pruning, every removed edge has exactly one separating-set entry,
   * under one of its two orders, so the lookup of `_find_colliders` succeeds.
   */
  lemma PrunedEdgesHaveOneEntry(test: Indep, g: Graph, x: Node, y: Node)
    requires WellFormed(g) && Adjacent(g, x, y)
    ensures var r := FindConditioningSets(test, g);
            !Adjacent(r.0, x, y) ==> ((x, y) in r.1 <==> (y, x) !in r.1)
  {
    EdgeListed(g, x, y);
    PruneAllEdges(Searcher(test, g.nodes), g, EdgeList(g), map[]);
  }

  /** Pruning keeps every edge when no edge's search succeeds. */
  lemma {:induction false} KeepsEveryEdge(find: Search, g: Graph, pairs: seq<seq<Node>>, sep: SepSets)
    requires WellFormed(g) && forall i :: 0 <= i < |pairs| ==> |pairs[i]| == 2
    requires forall e :: e in g.orient ==> find(e.0, e.1).None?
    ensures Skeleton(PruneAll(find, g, pairs, sep).0) == Skeleton(g)
    decreases |pairs|
  {
    if |pairs| > 0 {
      var a, b := pairs[0][0], pairs[0][1];
      var z := find(a, b);
      if z.Some? {
        assert (a, b) !in g.orient && (b, a) !in g.orient;
        assert DeleteEdge(g, a, b) == g;
        KeepsEveryEdge(find, g, pairs[1..], sep[(a, b) := z.value]);
      } else {
        KeepsEveryEdge(find, g, pairs[1..], sep);
      }
    }
  }

  /** With two variables there is nothing to condition on, so no edge is removed. */
  lemma TwoVariablesKeepTheEdge(test: Indep, x: Node, y: Node)
    requires x != y
    ensures var g := InitializeGraph([x, y]);
            Skeleton(FindConditioningSets(test, g).0) == Skeleton(g)
  {
    var g := InitializeGraph([x, y]);
    var find := Searcher(test, g.nodes);
    NoSearchSucceeds(test, g, x, y);
    KeepsEveryEdge(find, g, EdgeList(g), map[]);
    assert FindConditioningSets(test, g) == PruneAll(find, g, EdgeList(g), map[]);
  }

  /** On a graph over the two nodes x and y no edge's search succeeds. */
  lemma NoSearchSucceeds(test: Indep, g: Graph, x: Node, y: Node)
    requires WellFormed(g) && forall n :: n in g.nodes ==> n == x || n == y
    ensures forall e :: e in g.orient ==> Searcher(test, g.nodes)(e.0, e.1).None?
  {
    NothingToCondition(g.nodes, x, y);
    NothingToCondition(g.nodes, y, x);
    forall e | e in g.orient ensures Searcher(test, g.nodes)(e.0, e.1).None? {
      assert e == (x, y) || e == (y, x);
    }
  }

  /** Among two nodes, the search for their edge has no candidate set. */
  lemma NothingToCondition(nodes: seq<Node>, a: Node, b: Node)
    requires forall n :: n in nodes ==> n == a || n == b
    ensures forall test :: Separation(test, nodes, a, b).None?
  {
    forall i | 0 <= i < |nodes| ensures nodes[i] == a || nodes[i] == b {
      assert nodes[i] in nodes;
    }
    FilterNone(nodes, n => n != a && n != b);
  }
}
