/**
 * `Implications` of structure/validation.py: every (pair, conditioning set)
 * independence claim a causal graph makes, and the sorting of the oracle's
 * verdicts on those claims into agreements and two kinds of contradiction.
 */
module Validation {
  import opened Wrappers
  import opened Utils
  import opened Graphs
  import opened Paths
  import opened IcSkeleton

  /** The claim that x and y are independent given z (`independent`) or not. */
  datatype Implication = Implication(x: Node, y: Node, z: seq<Node>, independent: bool)

  /** z d-separates x and y: it blocks every simple path between them. */
  ghost predicate DSeparates(g: Graph, x: Node, y: Node, z: seq<Node>) {
    forall p :: IsSimplePath(g, p, x, y) ==> !OpenGiven(g, p, Elems(z))
  }

  /** A claim the graph makes: x before y in node order, z drawn from the other nodes, and the flag d-separation. */
  ghost predicate IsImplication(g: Graph, imp: Implication) {
    && imp.x != imp.y && IsSubsequence([imp.x, imp.y], g.nodes)
    && IsSubsequence(imp.z, Others(g.nodes, imp.x, imp.y))
    && (imp.independent <==> DSeparates(g, imp.x, imp.y, imp.z))
  }

  // ---------------------------------------------------------------------
  // _generate_testable_implications

  /** The `Path` views of every simple path from x to y. */
  function PathViews(g: Graph, x: Node, y: Node): (r: seq<seq<PathNode>>)
    requires WellFormed(g)
    ensures |r| == |AllPaths(g, x, y)|
    ensures forall i :: 0 <= i < |r| ==> r[i] == ClassifyNodes(g, AllPaths(g, x, y)[i])
  {
    var paths := AllPaths(g, x, y);
    seq(|paths|, i requires 0 <= i < |paths| => ClassifyNodes(g, paths[i]))
  }

  /** Every path view is d-separated by z; true when there are no paths. */
  predicate AllSeparated(views: seq<seq<PathNode>>, z: seq<Node>) {
    forall i :: 0 <= i < |views| ==> IsDSeparated(views[i], Some(z))
  }

  /** Testing the classified paths one by one decides d-separation of x and y. */
  lemma AllSeparatedIff(g: Graph, x: Node, y: Node, z: seq<Node>)
    requires WellFormed(g)
    ensures AllSeparated(PathViews(g, x, y), z) <==> DSeparates(g, x, y, z)
  {
    AllPathsExact(g, x, y);
    ViewsSeparatedIff(g, x, y, AllPaths(g, x, y), PathViews(g, x, y), z);
  }

  lemma ViewsSeparatedIff(g: Graph, x: Node, y: Node, paths: seq<seq<Node>>, views: seq<seq<PathNode>>, z: seq<Node>)
    requires WellFormed(g)
    requires forall p :: p in paths <==> IsSimplePath(g, p, x, y)
    requires |views| == |paths| && forall i :: 0 <= i < |views| ==> views[i] == ClassifyNodes(g, paths[i])
    ensures AllSeparated(views, z) <==> DSeparates(g, x, y, z)
  {
    if AllSeparated(views, z) {
      forall p | IsSimplePath(g, p, x, y) ensures !OpenGiven(g, p, Elems(z)) {
        var i :| 0 <= i < |paths| && paths[i] == p;
        DSeparatedIffNotOpen(g, p, z);
      }
    }
    if DSeparates(g, x, y, z) {
      forall i | 0 <= i < |views| ensures IsDSeparated(views[i], Some(z)) {
        assert paths[i] in paths;
        DSeparatedIffNotOpen(g, paths[i], z);
      }
    }
  }

  /**
   * The implications for one pair: one per subset of the other nodes, the
   * non-empty ones by size and then the empty one, each flagged with
   * whether it d-separates x and y.
   */
  function PairImplications(g: Graph, x: Node, y: Node): (r: seq<Implication>)
    requires WellFormed(g)
    ensures |r| == Pow2(|Others(g.nodes, x, y)|)
    ensures forall i :: 0 <= i < |r| ==>
              && r[i].x == x && r[i].y == y && IsSubsequence(r[i].z, Others(g.nodes, x, y))
              && (r[i].independent <==> DSeparates(g, x, y, r[i].z))
  {
    var zs := GetAllPossibleSets(Others(g.nodes, x, y), None, true);
    var views := PathViews(g, x, y);
    var r := seq(|zs|, j requires 0 <= j < |zs| => Implication(x, y, zs[j], AllSeparated(views, zs[j])));
    PairImplicationsShape(g, x, y, zs, r);
    r
  }

  /** The listing built by `PairImplications`, one implication per conditioning set. */
  lemma PairImplicationsShape(g: Graph, x: Node, y: Node, zs: seq<seq<Node>>, r: seq<Implication>)
    requires WellFormed(g) && zs == GetAllPossibleSets(Others(g.nodes, x, y), None, true)
    requires |r| == |zs|
    requires forall j :: 0 <= j < |r| ==> r[j] == Implication(x, y, zs[j], AllSeparated(PathViews(g, x, y), zs[j]))
    ensures |r| == Pow2(|Others(g.nodes, x, y)|)
    ensures forall i :: 0 <= i < |r| ==>
              && r[i].x == x && r[i].y == y && IsSubsequence(r[i].z, Others(g.nodes, x, y))
              && (r[i].independent <==> DSeparates(g, x, y, r[i].z))
  {
    GetAllPossibleSetsShape(Others(g.nodes, x, y), None, true);
    forall i | 0 <= i < |r|
      ensures IsSubsequence(r[i].z, Others(g.nodes, x, y)) && (r[i].independent <==> DSeparates(g, x, y, r[i].z))
    {
      AllSeparatedIff(g, x, y, zs[i]);
    }
  }

  /** Every subset of the other nodes, empty or not, has its implication for the pair. */
  lemma PairImplicationsComplete(g: Graph, x: Node, y: Node, z: seq<Node>)
    requires WellFormed(g) && IsSubsequence(z, Others(g.nodes, x, y))
    ensures Implication(x, y, z, DSeparates(g, x, y, z)) in PairImplications(g, x, y)
  {
    var others := Others(g.nodes, x, y);
    var zs := GetAllPossibleSets(others, None, true);
    GetAllPossibleSetsShape(others, None, true);
    var r := PairImplications(g, x, y);
    if z == [] {
      assert r[|zs| - 1].z == z;
    } else {
      GetAllPossibleSetsComplete(others, None, true, z);
      var j :| 0 <= j < |zs| && zs[j] == z;
      assert r[j].z == z;
    }
  }

  /** The implications of each pair, pair by pair. */
  function PerPair(g: Graph, pairs: seq<seq<Node>>): (r: seq<seq<Implication>>)
    requires WellFormed(g) && forall i :: 0 <= i < |pairs| ==> |pairs[i]| == 2
    ensures |r| == |pairs|
    ensures forall i :: 0 <= i < |r| ==> r[i] == PairImplications(g, pairs[i][0], pairs[i][1])
  {
    seq(|pairs|, i requires 0 <= i < |pairs| => PairImplications(g, pairs[i][0], pairs[i][1]))
  }

  /** Each pair of distinct nodes contributes 2^(n-2) implications. */
  lemma PairCount(g: Graph, pair: seq<Node>)
    requires WellFormed(g) && |pair| == 2 && pair[0] != pair[1] && IsSubsequence(pair, g.nodes)
    ensures |g.nodes| >= 2 && |PairImplications(g, pair[0], pair[1])| == Pow2(|g.nodes| - 2)
  {
    var x, y := pair[0], pair[1];
    SubsequenceElems(pair, g.nodes);
    assert x in Elems(pair) && y in Elems(pair);
    FilterOutTwo(g.nodes, x, y, n => n != x && n != y);
  }

  /**
   * `_generate_testable_implications`: for every pair x, y of nodes in node
   * order and every subset z of the other nodes (the empty one included),
   * the claim (x, y, z) flagged with whether z d-separates x and y. The
   * claims are exactly the graph's implications and there are
   * C(n, 2) * 2^(n - 2) of them for n nodes.
   */
  function GenerateTestableImplications(g: Graph): (r: seq<Implication>)
    requires WellFormed(g)
    ensures forall imp :: imp in r <==> IsImplication(g, imp)
    ensures |g.nodes| >= 2 ==> |r| == Binomial(|g.nodes|, 2) * Pow2(|g.nodes| - 2)
    ensures |g.nodes| < 2 ==> r == []
  {
    var pairs := GetAllPossibleSets(g.nodes, Some(2), false);
    PairsShape(g, pairs);
    var per := PerPair(g, pairs);
    GenerateCount(g, pairs, per);
    GenerateMembers(g, pairs, per);
    Flatten(per)
  }

  /** The pairs of `_generate_testable_implications` are ordered pairs of two different nodes. */
  lemma PairsShape(g: Graph, pairs: seq<seq<Node>>)
    requires WellFormed(g) && pairs == GetAllPossibleSets(g.nodes, Some(2), false)
    ensures forall i :: 0 <= i < |pairs| ==> |pairs[i]| == 2 && pairs[i][0] != pairs[i][1] && IsSubsequence(pairs[i], g.nodes)
    ensures |g.nodes| >= 2 ==> |pairs| == Binomial(|g.nodes|, 2)
    ensures |g.nodes| < 2 ==> pairs == []
  {
    GetAllPossibleSetsShape(g.nodes, Some(2), false);
    forall i | 0 <= i < |pairs| ensures pairs[i][0] != pairs[i][1] {
      SubsequenceDistinct(pairs[i], g.nodes);
    }
    if |g.nodes| < 2 {
      GetAllPossibleSetsTooLarge(g.nodes, 2, false);
    }
  }

  /** Each of the C(n, 2) pairs contributes 2^(n - 2) implications. */
  lemma GenerateCount(g: Graph, pairs: seq<seq<Node>>, per: seq<seq<Implication>>)
    requires WellFormed(g)
    requires forall i :: 0 <= i < |pairs| ==> |pairs[i]| == 2 && pairs[i][0] != pairs[i][1] && IsSubsequence(pairs[i], g.nodes)
    requires |g.nodes| >= 2 ==> |pairs| == Binomial(|g.nodes|, 2)
    requires |g.nodes| < 2 ==> pairs == []
    requires |per| == |pairs| && forall i :: 0 <= i < |per| ==> per[i] == PairImplications(g, pairs[i][0], pairs[i][1])
    ensures |g.nodes| >= 2 ==> |Flatten(per)| == Binomial(|g.nodes|, 2) * Pow2(|g.nodes| - 2)
    ensures |g.nodes| < 2 ==> Flatten(per) == []
  {
    if |g.nodes| >= 2 {
      forall i | 0 <= i < |per| ensures |per[i]| == Pow2(|g.nodes| - 2) {
        PairCount(g, pairs[i]);
      }
      FlattenLength(per, Pow2(|g.nodes| - 2));
    } else {
      FlattenLength(per, 0);
    }
  }

  /** Membership in the generated list is exactly being an implication of g. */
  lemma GenerateMembers(g: Graph, pairs: seq<seq<Node>>, per: seq<seq<Implication>>)
    requires WellFormed(g) && pairs == GetAllPossibleSets(g.nodes, Some(2), false)
    requires forall i :: 0 <= i < |pairs| ==> |pairs[i]| == 2 && pairs[i][0] != pairs[i][1] && IsSubsequence(pairs[i], g.nodes)
    requires |per| == |pairs| && forall i :: 0 <= i < |per| ==> per[i] == PairImplications(g, pairs[i][0], pairs[i][1])
    ensures forall imp :: imp in Flatten(per) <==> IsImplication(g, imp)
  {
    forall imp ensures imp in Flatten(per) <==> IsImplication(g, imp) {
      FlattenMembers(per, imp);
      if imp in Flatten(per) {
        var i :| 0 <= i < |per| && imp in per[i];
        GeneratedIsImplication(g, pairs[i], per[i], imp);
      }
      if IsImplication(g, imp) {
        ImplicationGenerated(g, pairs, per, imp);
      }
    }
  }

  /** Every implication of g is generated for its pair. */
  lemma ImplicationGenerated(g: Graph, pairs: seq<seq<Node>>, per: seq<seq<Implication>>, imp: Implication)
    requires WellFormed(g) && pairs == GetAllPossibleSets(g.nodes, Some(2), false)
    requires |per| == |pairs| && forall i :: 0 <= i < |per| ==> |pairs[i]| == 2 && per[i] == PairImplications(g, pairs[i][0], pairs[i][1])
    requires IsImplication(g, imp)
    ensures InSomePart(per, imp)
  {
    var c := [imp.x, imp.y];
    GetAllPossibleSetsComplete(g.nodes, Some(2), false, c);
    var i :| 0 <= i < |pairs| && pairs[i] == c;
    PairImplicationsComplete(g, imp.x, imp.y, imp.z);
    assert imp == Implication(imp.x, imp.y, imp.z, DSeparates(g, imp.x, imp.y, imp.z));
    assert imp in per[i];
  }

  /** An implication generated for a listed pair is an implication of g. */
  lemma GeneratedIsImplication(g: Graph, pair: seq<Node>, r: seq<Implication>, imp: Implication)
    requires |pair| == 2 && pair[0] != pair[1] && IsSubsequence(pair, g.nodes)
    requires forall i :: 0 <= i < |r| ==>
               && r[i].x == pair[0] && r[i].y == pair[1] && IsSubsequence(r[i].z, Others(g.nodes, pair[0], pair[1]))
               && (r[i].independent <==> DSeparates(g, pair[0], pair[1], r[i].z))
    requires imp in r
    ensures IsImplication(g, imp)
  {
    var j :| 0 <= j < |r| && r[j] == imp;
    assert pair == [imp.x, imp.y];
  }

  /** No implication conditions on either node of its pair. */
  lemma ImplicationAvoidsPair(g: Graph, imp: Implication)
    requires IsImplication(g, imp)
    ensures imp.x !in imp.z && imp.y !in imp.z
  {
    SubsequenceElems(imp.z, Others(g.nodes, imp.x, imp.y));
  }

  // ---------------------------------------------------------------------
  // _check_implications_against_data

  /** y is a categorical variable; no list at all means none is. */
  predicate IsCategorical(categorical: Option<seq<Node>>, y: Node) {
    categorical.Some? && y in categorical.value
  }

  /** The oracle's verdict on the claim: are x and y independent given z? */
  predicate Verdict(test: Indep, categorical: Option<seq<Node>>, imp: Implication) {
    test(imp.x, imp.y, imp.z, IsCategorical(categorical, imp.y))
  }

  /** The verdict matches the graph's claim. */
  predicate Agrees(test: Indep, categorical: Option<seq<Node>>, imp: Implication) {
    Verdict(test, categorical, imp) == imp.independent
  }

  /** The graph claims dependence but the oracle finds independence. */
  predicate WeakContradiction(test: Indep, categorical: Option<seq<Node>>, imp: Implication) {
    Verdict(test, categorical, imp) && !imp.independent
  }

  /** The graph claims independence but the oracle finds dependence. */
  predicate StrongContradiction(test: Indep, categorical: Option<seq<Node>>, imp: Implication) {
    !Verdict(test, categorical, imp) && imp.independent
  }

  /** Every claim is in exactly one of the three outcomes. */
  lemma ExactlyOneOutcome(test: Indep, categorical: Option<seq<Node>>, imp: Implication)
    ensures Agrees(test, categorical, imp) || WeakContradiction(test, categorical, imp) || StrongContradiction(test, categorical, imp)
    ensures !(Agrees(test, categorical, imp) && WeakContradiction(test, categorical, imp))
    ensures !(Agrees(test, categorical, imp) && StrongContradiction(test, categorical, imp))
    ensures !(WeakContradiction(test, categorical, imp) && StrongContradiction(test, categorical, imp))
  {
  }

  /** The three result lists of `_check_implications_against_data`. */
  datatype Buckets = Buckets(agreements: seq<Implication>, weak: seq<Implication>, strong: seq<Implication>)

  /**
   * `_check_implications_against_data`: the claims are visited in order and
   * each is appended to the list of its outcome, so the three lists split
   * the claims between them and each holds only claims of its outcome.
   */
  function CheckImplications(test: Indep, categorical: Option<seq<Node>>, imps: seq<Implication>): (r: Buckets)
    ensures |r.agreements| + |r.weak| + |r.strong| == |imps|
    ensures forall i :: 0 <= i < |r.agreements| ==> r.agreements[i] in imps && Agrees(test, categorical, r.agreements[i])
    ensures forall i :: 0 <= i < |r.weak| ==> r.weak[i] in imps && WeakContradiction(test, categorical, r.weak[i])
    ensures forall i :: 0 <= i < |r.strong| ==> r.strong[i] in imps && StrongContradiction(test, categorical, r.strong[i])
    decreases |imps|
  {
    if |imps| == 0 then Buckets([], [], [])
    else
      var before := imps[..|imps| - 1];
      var imp := imps[|imps| - 1];
      var b := CheckImplications(test, categorical, before);
      assert forall x :: x in before ==> x in imps;
      if Verdict(test, categorical, imp) == imp.independent then b.(agreements := b.agreements + [imp])
      else if Verdict(test, categorical, imp) then b.(weak := b.weak + [imp])
      else b.(strong := b.strong + [imp])
  }

  /**
   * Each list is the claims of its outcome in their original order: the
   * lists are the three filters of the claims.
   */
  lemma {:induction false} CheckImplicationsFilters(test: Indep, categorical: Option<seq<Node>>, imps: seq<Implication>)
    ensures var r := CheckImplications(test, categorical, imps);
            && r.agreements == Filter(imps, imp => Agrees(test, categorical, imp))
            && r.weak == Filter(imps, imp => WeakContradiction(test, categorical, imp))
            && r.strong == Filter(imps, imp => StrongContradiction(test, categorical, imp))
    decreases |imps|
  {
    if |imps| > 0 {
      var before := imps[..|imps| - 1];
      var imp := imps[|imps| - 1];
      assert imps == before + [imp];
      CheckImplicationsFilters(test, categorical, before);
      FilterSnoc(before, imp, imp => Agrees(test, categorical, imp));
      FilterSnoc(before, imp, imp => WeakContradiction(test, categorical, imp));
      FilterSnoc(before, imp, imp => StrongContradiction(test, categorical, imp));
    }
  }

  /** Every claim lands in the list of its outcome. */
  lemma CheckImplicationsComplete(test: Indep, categorical: Option<seq<Node>>, imps: seq<Implication>, imp: Implication)
    requires imp in imps
    ensures var r := CheckImplications(test, categorical, imps);
            && (Agrees(test, categorical, imp) ==> imp in r.agreements)
            && (WeakContradiction(test, categorical, imp) ==> imp in r.weak)
            && (StrongContradiction(test, categorical, imp) ==> imp in r.strong)
  {
    CheckImplicationsFilters(test, categorical, imps);
  }

  /**
   * The whole of `Implications.__init__` after the data is fixed: generate
   * the graph's claims and sort the oracle's verdicts on them.
   */
  function Validate(g: Graph, test: Indep, categorical: Option<seq<Node>>): (r: (seq<Implication>, Buckets))
    requires WellFormed(g)
    ensures forall imp :: imp in r.0 <==> IsImplication(g, imp)
    ensures |r.1.agreements| + |r.1.weak| + |r.1.strong| == |r.0|
    ensures forall imp :: imp in r.0 && StrongContradiction(test, categorical, imp) ==> imp in r.1.strong && DSeparates(g, imp.x, imp.y, imp.z)
  {
    var imps := GenerateTestableImplications(g);
    var b := CheckImplications(test, categorical, imps);
    assert forall imp :: imp in imps && StrongContradiction(test, categorical, imp) ==> imp in b.strong by {
      forall imp | imp in imps && StrongContradiction(test, categorical, imp) ensures imp in b.strong {
        CheckImplicationsComplete(test, categorical, imps, imp);
      }
    }
    (imps, b)
  }
}
