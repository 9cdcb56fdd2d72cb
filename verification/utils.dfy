/**
 * Sequence helpers and the conditioning-set enumerator `get_all_possible_sets`
 * (causaldag/utils.py), which lists combinations in the order of Python's
 * `itertools.combinations`, tier by tier from the smallest size upwards.
 */
module Utils {
  import opened Wrappers

  /** No element occurs twice. */
  predicate Distinct<T(==)>(s: seq<T>) {
    forall i, j :: 0 <= i < j < |s| ==> s[i] != s[j]
  }

  /** The elements of a sequence, as a set. */
  function Elems<T(==)>(s: seq<T>): set<T> {
    set x | x in s
  }

  /**
   * `sub` is obtained from `s` by deleting elements: its elements are drawn
   * from `s` in the order of `s`, each position used at most once.
   */
  predicate IsSubsequence<T(==)>(sub: seq<T>, s: seq<T>)
    decreases |s|
  {
    if |sub| == 0 then true
    else if |s| == 0 then false
    else (sub[0] == s[0] && IsSubsequence(sub[1..], s[1..])) || IsSubsequence(sub, s[1..])
  }

  /** The elements of `s` that satisfy `keep`, in the order of `s` (a list comprehension with a guard). */
  function Filter<T(==)>(s: seq<T>, keep: T -> bool): (r: seq<T>)
    ensures forall x :: x in r ==> x in s && keep(x)
    ensures forall x :: x in s && keep(x) ==> x in r
    ensures IsSubsequence(r, s)
  {
    if |s| == 0 then []
    else if keep(s[0]) then
      var rest := Filter(s[1..], keep);
      assert ([s[0]] + rest)[1..] == rest;
      [s[0]] + rest
    else Filter(s[1..], keep)
  }

  /** Prefixes `x` to every sequence of `cs`. */
  function PrependAll<T>(x: T, cs: seq<seq<T>>): (r: seq<seq<T>>)
    ensures |r| == |cs|
    ensures forall i :: 0 <= i < |r| ==> r[i] == [x] + cs[i]
  {
    seq(|cs|, i requires 0 <= i < |cs| => [x] + cs[i])
  }

  /** The binomial coefficient C(n, k), by Pascal's rule. */
  function Binomial(n: nat, k: nat): nat {
    if k == 0 then 1
    else if n == 0 then 0
    else Binomial(n - 1, k - 1) + Binomial(n - 1, k)
  }

  function Pow2(n: nat): nat {
    if n == 0 then 1 else 2 * Pow2(n - 1)
  }

  /** C(n, from) + C(n, from + 1) + ... + C(n, n). */
  function SumBinomials(n: nat, from: nat): nat
    decreases n + 1 - from
  {
    if from > n then 0 else Binomial(n, from) + SumBinomials(n, from + 1)
  }

  /**
   * `itertools.combinations(s, k)`: every choice of k positions of `s`, in
   * lexicographic order of the chosen positions.
   */
  function Combinations<T(==)>(s: seq<T>, k: nat): (r: seq<seq<T>>)
    decreases |s|
  {
    if k == 0 then [[]]
    else if |s| == 0 then []
    else PrependAll(s[0], Combinations(s[1..], k - 1)) + Combinations(s[1..], k)
  }

  /** Every sequence of `r` has between `lo` and `hi` elements. */
  predicate SizesWithin<T>(r: seq<seq<T>>, lo: nat, hi: nat) {
    forall i :: 0 <= i < |r| ==> lo <= |r[i]| <= hi
  }

  /** Every sequence of `r` is a subsequence of `s`. */
  predicate AllSubsequences<T(==)>(r: seq<seq<T>>, s: seq<T>) {
    forall i :: 0 <= i < |r| ==> IsSubsequence(r[i], s)
  }

  /** There are C(|s|, k) combinations, each a k-element subsequence of `s`. */
  lemma {:induction false} CombinationsShape<T>(s: seq<T>, k: nat)
    ensures var r := Combinations(s, k);
            |r| == Binomial(|s|, k) && SizesWithin(r, k, k) && AllSubsequences(r, s)
    decreases |s|
  {
    if k > 0 && |s| > 0 {
      CombinationsShape(s[1..], k - 1);
      CombinationsShape(s[1..], k);
      CombinationsShapeStep(s, k);
    }
  }

  /** The step of `CombinationsShape`: the combinations with the head, then those without it. */
  lemma CombinationsShapeStep<T>(s: seq<T>, k: nat)
    requires k > 0 && |s| > 0
    requires var r := Combinations(s[1..], k - 1);
             |r| == Binomial(|s| - 1, k - 1) && SizesWithin(r, k - 1, k - 1) && AllSubsequences(r, s[1..])
    requires var r := Combinations(s[1..], k);
             |r| == Binomial(|s| - 1, k) && SizesWithin(r, k, k) && AllSubsequences(r, s[1..])
    ensures var r := Combinations(s, k);
            |r| == Binomial(|s|, k) && SizesWithin(r, k, k) && AllSubsequences(r, s)
  {
    var shorter := Combinations(s[1..], k - 1);
    var withoutHead := Combinations(s[1..], k);
    PrependAllShape(s, shorter, k - 1);
    DropHeadAll(s, withoutHead);
    SizesWithinConcat(PrependAll(s[0], shorter), withoutHead, k, k);
    AllSubsequencesConcat(PrependAll(s[0], shorter), withoutHead, s);
    assert Combinations(s, k) == PrependAll(s[0], shorter) + withoutHead;
  }

  /** Prefixing the head of `s` to subsequences of its tail gives subsequences of `s`, one element longer. */
  lemma PrependAllShape<T>(s: seq<T>, cs: seq<seq<T>>, k: nat)
    requires |s| > 0 && SizesWithin(cs, k, k) && AllSubsequences(cs, s[1..])
    ensures SizesWithin(PrependAll(s[0], cs), k + 1, k + 1) && AllSubsequences(PrependAll(s[0], cs), s)
  {
    var r := PrependAll(s[0], cs);
    forall i | 0 <= i < |r| ensures |r[i]| == k + 1 && IsSubsequence(r[i], s) {
      ConsSubsequence(cs[i], s);
    }
  }

  /** Subsequences of the tail of `s` are subsequences of `s`. */
  lemma DropHeadAll<T>(s: seq<T>, cs: seq<seq<T>>)
    requires |s| > 0 && AllSubsequences(cs, s[1..])
    ensures AllSubsequences(cs, s)
  {
    forall i | 0 <= i < |cs| ensures IsSubsequence(cs[i], s) {
      DropHeadSubsequence(cs[i], s);
    }
  }

  lemma SizesWithinConcat<T>(a: seq<seq<T>>, b: seq<seq<T>>, lo: nat, hi: nat)
    requires SizesWithin(a, lo, hi) && SizesWithin(b, lo, hi)
    ensures SizesWithin(a + b, lo, hi)
  {
    forall i | 0 <= i < |a + b| ensures lo <= |(a + b)[i]| <= hi {
      if i < |a| {
        assert (a + b)[i] == a[i];
      } else {
        assert (a + b)[i] == b[i - |a|];
      }
    }
  }

  lemma AllSubsequencesConcat<T>(a: seq<seq<T>>, b: seq<seq<T>>, s: seq<T>)
    requires AllSubsequences(a, s) && AllSubsequences(b, s)
    ensures AllSubsequences(a + b, s)
  {
    forall i | 0 <= i < |a + b| ensures IsSubsequence((a + b)[i], s) {
      if i < |a| {
        assert (a + b)[i] == a[i];
      } else {
        assert (a + b)[i] == b[i - |a|];
      }
    }
  }

  /** Every combination of every size from `size` up to |s|, smallest size first. */
  function AllSizes<T(==)>(s: seq<T>, size: nat): (r: seq<seq<T>>)
    decreases |s| + 1 - size
  {
    if size > |s| then [] else Combinations(s, size) + AllSizes(s, size + 1)
  }

  /**
   * The listing from size `size` on has C(|s|, size) + ... + C(|s|, |s|)
   * entries, each a subsequence of `s` of at least `size` elements.
   */
  lemma {:induction false} AllSizesShape<T>(s: seq<T>, size: nat)
    ensures var r := AllSizes(s, size);
            |r| == SumBinomials(|s|, size) && SizesWithin(r, size, |s|) && AllSubsequences(r, s)
    decreases |s| + 1 - size
  {
    if size <= |s| {
      CombinationsShape(s, size);
      AllSizesShape(s, size + 1);
      AllSizesShapeStep(s, size);
    }
  }

  /** The step of `AllSizesShape`: the tier of one size, then the longer ones. */
  lemma AllSizesShapeStep<T>(s: seq<T>, size: nat)
    requires size <= |s|
    requires var r := Combinations(s, size);
             |r| == Binomial(|s|, size) && SizesWithin(r, size, size) && AllSubsequences(r, s)
    requires var r := AllSizes(s, size + 1);
             |r| == SumBinomials(|s|, size + 1) && SizesWithin(r, size + 1, |s|) && AllSubsequences(r, s)
    ensures var r := AllSizes(s, size);
            |r| == SumBinomials(|s|, size) && SizesWithin(r, size, |s|) && AllSubsequences(r, s)
  {
    var tier := Combinations(s, size);
    var rest := AllSizes(s, size + 1);
    SizesWithinWiden(rest, size + 1, size, |s|);
    SizesWithinConcat(tier, rest, size, |s|);
    AllSubsequencesConcat(tier, rest, s);
    AllSizesUnfold(s, size);
  }

  /** The lengths part of `CombinationsShape`: every k-combination has k elements. */
  lemma CombinationsSizes<T>(s: seq<T>, k: nat)
    ensures SizesWithin(Combinations(s, k), k, k)
  {
    CombinationsShape(s, k);
  }

  /** The lengths part of `AllSizesShape`. */
  lemma AllSizesSizes<T>(s: seq<T>, size: nat)
    ensures SizesWithin(AllSizes(s, size), size, |s|)
  {
    AllSizesShape(s, size);
  }

  /**
   * `get_all_possible_sets(nodes, k, include_empty)`: the combinations of
   * exactly `k` nodes when `k` is given, otherwise every non-empty
   * combination grouped by size 1..|nodes|; `include_empty` appends the empty
   * combination once, at the end.
   */
  function GetAllPossibleSets<T(==)>(nodes: seq<T>, k: Option<nat>, includeEmpty: bool): (r: seq<seq<T>>)
  {
    var sets := if k.None? then AllSizes(nodes, 1) else Combinations(nodes, k.value);
    if includeEmpty then sets + [[]] else sets
  }

  /**
   * `get_all_possible_sets` lists C(|nodes|, k) sets of k nodes, or all
   * 2^|nodes| - 1 non-empty ones, each a subsequence of `nodes`, plus the
   * empty set last when asked for.
   */
  lemma GetAllPossibleSetsShape<T>(nodes: seq<T>, k: Option<nat>, includeEmpty: bool)
    ensures var r := GetAllPossibleSets(nodes, k, includeEmpty);
            && (includeEmpty ==> |r| > 0 && r[|r| - 1] == [])
            && |r| == (if k.Some? then Binomial(|nodes|, k.value) else Pow2(|nodes|) - 1)
                      + (if includeEmpty then 1 else 0)
            && forall i :: 0 <= i < |r| - (if includeEmpty then 1 else 0) ==>
                 && IsSubsequence(r[i], nodes)
                 && (if k.Some? then |r[i]| == k.value else 1 <= |r[i]|)
  {
    var sets := if k.None? then AllSizes(nodes, 1) else Combinations(nodes, k.value);
    var r := GetAllPossibleSets(nodes, k, includeEmpty);
    assert r == if includeEmpty then sets + [[]] else sets;
    if k.None? {
      AllSizesShape(nodes, 1);
      SumBinomialsIsPow2(|nodes|);
    } else {
      CombinationsShape(nodes, k.value);
    }
    forall i | 0 <= i < |r| - (if includeEmpty then 1 else 0)
      ensures IsSubsequence(r[i], nodes) && (if k.Some? then |r[i]| == k.value else 1 <= |r[i]|)
    {
      assert r[i] == sets[i];
    }
  }

  /** The listing from size `size` on is the combinations of that size, then the larger ones. */
  lemma AllSizesUnfold<T>(s: seq<T>, size: nat)
    requires size <= |s|
    ensures AllSizes(s, size) == Combinations(s, size) + AllSizes(s, size + 1)
  {
  }

  /** The sequences are listed by non-decreasing length. */
  predicate SizeOrdered<T>(r: seq<seq<T>>) {
    forall i, j :: 0 <= i < j < |r| ==> |r[i]| <= |r[j]|
  }

  /** `AllSizes` lists the combinations by non-decreasing size. */
  lemma {:induction false} AllSizesBySize<T>(s: seq<T>, size: nat)
    ensures SizeOrdered(AllSizes(s, size))
    decreases |s| + 1 - size
  {
    if size <= |s| {
      AllSizesBySize(s, size + 1);
      AllSizesBySizeStep(s, size);
    }
  }

  /** The step of `AllSizesBySize`: one tier of equal sizes, then longer ones. */
  lemma AllSizesBySizeStep<T>(s: seq<T>, size: nat)
    requires size <= |s| && SizeOrdered(AllSizes(s, size + 1))
    ensures SizeOrdered(AllSizes(s, size))
  {
    var tier := Combinations(s, size);
    var rest := AllSizes(s, size + 1);
    CombinationsSizes(s, size);
    AllSizesSizes(s, size + 1);
    SameSizeOrdered(tier, size);
    SizesWithinWiden(rest, size + 1, size, |s|);
    SizeOrderedConcat(tier, rest, size, size, |s|);
    AllSizesUnfold(s, size);
  }

  /** Lengths within a range stay within any wider range. */
  lemma SizesWithinWiden<T>(r: seq<seq<T>>, lo: nat, lo': nat, hi: nat)
    requires SizesWithin(r, lo, hi) && lo' <= lo
    ensures SizesWithin(r, lo', hi)
  {
  }

  /** Sequences that all have the same length are trivially ordered by length. */
  lemma SameSizeOrdered<T>(r: seq<seq<T>>, k: nat)
    requires SizesWithin(r, k, k)
    ensures SizeOrdered(r)
  {
  }

  /** Two size-ordered listings, the first no longer than `mid` and the second no shorter, stay ordered when joined. */
  lemma SizeOrderedConcat<T>(a: seq<seq<T>>, b: seq<seq<T>>, lo: nat, mid: nat, hi: nat)
    requires SizeOrdered(a) && SizeOrdered(b) && SizesWithin(a, lo, mid) && SizesWithin(b, mid, hi)
    ensures SizeOrdered(a + b)
  {
    var r := a + b;
    forall i, j | 0 <= i < j < |r| ensures |r[i]| <= |r[j]| {
      if j < |a| {
        assert r[i] == a[i] && r[j] == a[j];
      } else if i < |a| {
        assert r[i] == a[i] && r[j] == b[j - |a|];
      } else {
        assert r[i] == b[i - |a|] && r[j] == b[j - |a|];
      }
    }
  }

  /** Without a fixed size, `get_all_possible_sets` lists smaller sets first. */
  lemma GetAllPossibleSetsBySize<T>(nodes: seq<T>, includeEmpty: bool)
    ensures var r := GetAllPossibleSets(nodes, None, includeEmpty);
            SizeOrdered(if includeEmpty then r[..|r| - 1] else r)
  {
    AllSizesBySize(nodes, 1);
    var sets := AllSizes(nodes, 1);
    var r := GetAllPossibleSets(nodes, None, includeEmpty);
    assert r == if includeEmpty then sets + [[]] else sets;
    if includeEmpty {
      assert r[..|r| - 1] == sets;
    }
  }

  // ---------------------------------------------------------------------
  // Subsequences

  /** Keeping the first element extends a subsequence of the tail. */
  lemma ConsSubsequence<T>(c: seq<T>, s: seq<T>)
    requires |s| > 0 && IsSubsequence(c, s[1..])
    ensures IsSubsequence([s[0]] + c, s)
  {
    assert ([s[0]] + c)[1..] == c;
  }

  /** A subsequence of the tail is a subsequence of the whole. */
  lemma DropHeadSubsequence<T>(c: seq<T>, s: seq<T>)
    requires |s| > 0 && IsSubsequence(c, s[1..])
    ensures IsSubsequence(c, s)
  {
  }

  lemma {:induction false} SubsequenceLength<T>(sub: seq<T>, s: seq<T>)
    requires IsSubsequence(sub, s)
    ensures |sub| <= |s|
    decreases |s|
  {
    if |sub| > 0 {
      if sub[0] == s[0] && IsSubsequence(sub[1..], s[1..]) {
        SubsequenceLength(sub[1..], s[1..]);
      } else {
        SubsequenceLength(sub, s[1..]);
      }
    }
  }

  /** Every element of a subsequence is an element of the sequence. */
  lemma {:induction false} SubsequenceElems<T>(sub: seq<T>, s: seq<T>)
    requires IsSubsequence(sub, s)
    ensures forall x :: x in sub ==> x in s
    decreases |s|
  {
    if |sub| > 0 {
      if sub[0] == s[0] && IsSubsequence(sub[1..], s[1..]) {
        SubsequenceElems(sub[1..], s[1..]);
        forall x | x in sub ensures x in s {
          if x != sub[0] {
            assert x in sub[1..];
          }
        }
      } else {
        SubsequenceElems(sub, s[1..]);
      }
    }
  }

  /** A subsequence of a sequence without repetitions has no repetitions. */
  lemma {:induction false} SubsequenceDistinct<T>(sub: seq<T>, s: seq<T>)
    requires IsSubsequence(sub, s) && Distinct(s)
    ensures Distinct(sub)
    decreases |s|
  {
    if |sub| > 0 {
      assert Distinct(s[1..]);
      if sub[0] == s[0] && IsSubsequence(sub[1..], s[1..]) {
        SubsequenceDistinct(sub[1..], s[1..]);
        SubsequenceElems(sub[1..], s[1..]);
        forall i, j | 0 <= i < j < |sub| ensures sub[i] != sub[j] {
          if i == 0 {
            assert sub[j] == sub[1..][j - 1];
            assert sub[j] in s[1..];
          } else {
            assert sub[i] == sub[1..][i - 1] && sub[j] == sub[1..][j - 1];
          }
        }
      } else {
        SubsequenceDistinct(sub, s[1..]);
      }
    }
  }

  /** Two positions i < j of `s` give the subsequence [s[i], s[j]]. */
  lemma {:induction false} PairIsSubsequence<T>(s: seq<T>, i: nat, j: nat)
    requires i < j < |s|
    ensures IsSubsequence([s[i], s[j]], s)
    decreases i
  {
    if i == 0 {
      var rest := s[1..];
      assert s[j] == rest[j - 1];
      assert IsSubsequence([rest[j - 1]], rest) by {
        SingletonIsSubsequence(rest, j - 1);
      }
      assert [s[i], s[j]][1..] == [s[j]];
    } else {
      PairIsSubsequence(s[1..], i - 1, j - 1);
      assert s[1..][i - 1] == s[i] && s[1..][j - 1] == s[j];
    }
  }

  lemma {:induction false} SingletonIsSubsequence<T>(s: seq<T>, i: nat)
    requires i < |s|
    ensures IsSubsequence([s[i]], s)
    decreases i
  {
    if i > 0 {
      SingletonIsSubsequence(s[1..], i - 1);
      assert s[1..][i - 1] == s[i];
    } else {
      assert [s[0]][1..] == [];
    }
  }

  /** A two-element subsequence comes from two positions i < j. */
  lemma {:induction false} PairPositions<T>(x: T, y: T, s: seq<T>)
    requires IsSubsequence([x, y], s)
    ensures exists i, j :: 0 <= i < j < |s| && s[i] == x && s[j] == y
    decreases |s|
  {
    if x == s[0] && IsSubsequence([x, y][1..], s[1..]) {
      assert [x, y][1..] == [y];
      SubsequenceElems([y], s[1..]);
      assert y in [y];
      var j :| 0 <= j < |s[1..]| && s[1..][j] == y;
      assert s[0] == x && s[j + 1] == y;
    } else {
      PairPositions(x, y, s[1..]);
      var i, j :| 0 <= i < j < |s[1..]| && s[1..][i] == x && s[1..][j] == y;
      assert s[i + 1] == x && s[j + 1] == y;
    }
  }

  /** In a sequence without repetitions, a pair is a subsequence in at most one order. */
  lemma PairOrderUnique<T>(x: T, y: T, s: seq<T>)
    requires Distinct(s) && IsSubsequence([x, y], s)
    ensures !IsSubsequence([y, x], s)
  {
    PairPositions(x, y, s);
    if IsSubsequence([y, x], s) {
      PairPositions(y, x, s);
      assert false;
    }
  }

  /** Filtering a sequence without repetitions keeps it without repetitions. */
  lemma FilterDistinct<T>(s: seq<T>, keep: T -> bool)
    requires Distinct(s)
    ensures Distinct(Filter(s, keep))
  {
    SubsequenceDistinct(Filter(s, keep), s);
  }

  /** Filtering depends only on the verdicts for the elements of `s`. */
  lemma {:induction false} FilterCongruent<T>(s: seq<T>, keep: T -> bool, keep': T -> bool)
    requires forall i :: 0 <= i < |s| ==> keep(s[i]) == keep'(s[i])
    ensures Filter(s, keep) == Filter(s, keep')
  {
    if |s| > 0 {
      FilterCongruent(s[1..], keep, keep');
    }
  }

  /** Nothing survives a filter that rejects every element. */
  lemma {:induction false} FilterNone<T>(s: seq<T>, keep: T -> bool)
    requires forall i :: 0 <= i < |s| ==> !keep(s[i])
    ensures Filter(s, keep) == []
  {
    if |s| > 0 {
      FilterNone(s[1..], keep);
    }
  }

  /** Filtering a sequence extended at the end filters the new element last. */
  lemma {:induction false} FilterSnoc<T>(s: seq<T>, x: T, keep: T -> bool)
    ensures Filter(s + [x], keep) == Filter(s, keep) + (if keep(x) then [x] else [])
  {
    if |s| > 0 {
      assert (s + [x])[1..] == s[1..] + [x];
      FilterSnoc(s[1..], x, keep);
    } else {
      assert (s + [x])[1..] == [];
    }
  }

  /** Dropping two different values from a sequence without repetitions removes one element for each value present. */
  lemma {:induction false} FilterOutTwo<T>(s: seq<T>, a: T, b: T, keep: T -> bool)
    requires Distinct(s) && a != b
    requires forall x :: keep(x) <==> x != a && x != b
    ensures |Filter(s, keep)| == |s| - (if a in s then 1 else 0) - (if b in s then 1 else 0)
  {
    if |s| > 0 {
      HeadNotInTail(s);
      assert Distinct(s[1..]) by {
        forall i, j | 0 <= i < j < |s[1..]| ensures s[1..][i] != s[1..][j] {
          assert s[1..][i] == s[i + 1] && s[1..][j] == s[j + 1];
        }
      }
      FilterOutTwo(s[1..], a, b, keep);
      assert a in s <==> a == s[0] || a in s[1..];
      assert b in s <==> b == s[0] || b in s[1..];
    }
  }

  /** The sequences of `ss` joined in order. */
  function Flatten<T>(ss: seq<seq<T>>): (r: seq<T>)
    decreases |ss|
  {
    if |ss| == 0 then [] else ss[0] + Flatten(ss[1..])
  }

  /** x is an element of one of the parts. */
  predicate InSomePart<T(==)>(ss: seq<seq<T>>, x: T) {
    exists i :: 0 <= i < |ss| && x in ss[i]
  }

  /** An element of the joined sequence is an element of one of the parts, and back. */
  lemma {:induction false} FlattenMembers<T>(ss: seq<seq<T>>, x: T)
    ensures x in Flatten(ss) <==> InSomePart(ss, x)
    decreases |ss|
  {
    if |ss| > 0 {
      FlattenMembers(ss[1..], x);
      assert Flatten(ss) == ss[0] + Flatten(ss[1..]);
      if x in Flatten(ss) {
        if x in ss[0] {
          assert InSomePart(ss, x);
        } else {
          assert x in Flatten(ss[1..]);
          var i :| 0 <= i < |ss[1..]| && x in ss[1..][i];
          assert x in ss[i + 1];
        }
      }
      if InSomePart(ss, x) {
        var i :| 0 <= i < |ss| && x in ss[i];
        if i == 0 {
          InConcat(ss[0], Flatten(ss[1..]), x);
        } else {
          assert ss[1..][i - 1] == ss[i];
          assert InSomePart(ss[1..], x);
          InConcat(ss[0], Flatten(ss[1..]), x);
        }
      }
    }
  }

  /** Joining parts of equal length k gives |ss| * k elements. */
  lemma {:induction false} FlattenLength<T>(ss: seq<seq<T>>, k: nat)
    requires forall i :: 0 <= i < |ss| ==> |ss[i]| == k
    ensures |Flatten(ss)| == |ss| * k
    decreases |ss|
  {
    if |ss| > 0 {
      FlattenLength(ss[1..], k);
      assert |ss[0]| == k;
    }
  }

  // ---------------------------------------------------------------------
  // Combinations

  /** Every k-element subsequence of `s` is among its k-combinations. */
  lemma {:induction false} CombinationsComplete<T>(s: seq<T>, k: nat, c: seq<T>)
    requires |c| == k && IsSubsequence(c, s)
    ensures c in Combinations(s, k)
    decreases |s|
  {
    if k > 0 {
      if c[0] == s[0] && IsSubsequence(c[1..], s[1..]) {
        CombinationsComplete(s[1..], k - 1, c[1..]);
        WithHeadListed(s, k, c);
      } else {
        CombinationsComplete(s[1..], k, c);
        WithoutHeadListed(s, k, c);
      }
    }
  }

  /** A combination that keeps the head comes from a shorter combination of the tail. */
  lemma WithHeadListed<T>(s: seq<T>, k: nat, c: seq<T>)
    requires k > 0 && |s| > 0 && |c| == k && c[0] == s[0] && c[1..] in Combinations(s[1..], k - 1)
    ensures c in Combinations(s, k)
  {
    var tail := Combinations(s[1..], k - 1);
    var i :| 0 <= i < |tail| && tail[i] == c[1..];
    assert PrependAll(s[0], tail)[i] == c;
    InConcat(PrependAll(s[0], tail), Combinations(s[1..], k), c);
  }

  /** A combination of the tail is a combination of the whole sequence. */
  lemma WithoutHeadListed<T>(s: seq<T>, k: nat, c: seq<T>)
    requires k > 0 && |s| > 0 && c in Combinations(s[1..], k)
    ensures c in Combinations(s, k)
  {
    InConcat(PrependAll(s[0], Combinations(s[1..], k - 1)), Combinations(s[1..], k), c);
  }

  /** k-combinations of a sequence without repetitions are pairwise different. */
  lemma {:induction false} CombinationsDistinct<T>(s: seq<T>, k: nat)
    requires Distinct(s)
    ensures Distinct(Combinations(s, k))
    decreases |s|
  {
    if k > 0 && |s| > 0 {
      assert Distinct(s[1..]);
      CombinationsDistinct(s[1..], k - 1);
      CombinationsDistinct(s[1..], k);
      CombinationsDistinctStep(s, k);
    }
  }

  /** The step of `CombinationsDistinct`: combinations with the head differ from those without it. */
  lemma CombinationsDistinctStep<T>(s: seq<T>, k: nat)
    requires Distinct(s) && k > 0 && |s| > 0
    requires Distinct(Combinations(s[1..], k - 1)) && Distinct(Combinations(s[1..], k))
    ensures Distinct(Combinations(s, k))
  {
    var tail := Combinations(s[1..], k - 1);
    var withHead := PrependAll(s[0], tail);
    var withoutHead := Combinations(s[1..], k);
    CombinationsShape(s[1..], k);
    PrependAllDistinct(s[0], tail);
    HeadNotInTail(s);
    forall i, j | 0 <= i < |withHead| && 0 <= j < |withoutHead| ensures withHead[i] != withoutHead[j] {
      var c := withoutHead[j];
      SubsequenceElems(c, s[1..]);
      assert c[0] in c;
    }
    DistinctConcat(withHead, withoutHead);
    assert Combinations(s, k) == withHead + withoutHead;
  }

  lemma PrependAllDistinct<T>(x: T, cs: seq<seq<T>>)
    requires Distinct(cs)
    ensures Distinct(PrependAll(x, cs))
  {
    var r := PrependAll(x, cs);
    forall i, j | 0 <= i < j < |r| ensures r[i] != r[j] {
      assert r[i][1..] == cs[i] && r[j][1..] == cs[j];
    }
  }

  lemma HeadNotInTail<T>(s: seq<T>)
    requires Distinct(s) && |s| > 0
    ensures s[0] !in s[1..]
  {
    forall m | 0 <= m < |s[1..]| ensures s[1..][m] != s[0] {
      assert s[1..][m] == s[m + 1];
    }
  }

  /** Concatenating two disjoint sequences without repetitions gives one without repetitions. */
  lemma DistinctConcat<T>(a: seq<T>, b: seq<T>)
    requires Distinct(a) && Distinct(b)
    requires forall i, j :: 0 <= i < |a| && 0 <= j < |b| ==> a[i] != b[j]
    ensures Distinct(a + b)
  {
    var r := a + b;
    forall i, j | 0 <= i < j < |r| ensures r[i] != r[j] {
      if j < |a| {
        assert r[i] == a[i] && r[j] == a[j];
      } else if i >= |a| {
        assert r[i] == b[i - |a|] && r[j] == b[j - |a|];
      } else {
        assert r[i] == a[i] && r[j] == b[j - |a|];
      }
    }
  }

  /** There are no k-combinations when k exceeds the number of elements. */
  lemma {:induction false} BinomialAboveN(n: nat, k: nat)
    requires k > n
    ensures Binomial(n, k) == 0
  {
    if n > 0 {
      BinomialAboveN(n - 1, k - 1);
      BinomialAboveN(n - 1, k);
    }
  }

  /** Pascal's rule summed over a tail of sizes. */
  lemma {:induction false} SumBinomialsPascal(n: nat, j: nat)
    requires 1 <= j
    ensures SumBinomials(n + 1, j) == SumBinomials(n, j - 1) + SumBinomials(n, j)
    decreases n + 2 - j
  {
    if j <= n + 1 {
      SumBinomialsPascal(n, j + 1);
      if j == n + 1 {
        BinomialAboveN(n, n + 1);
      }
    }
  }

  /** Summing C(n, i) over every size i gives 2^n. */
  lemma {:induction false} SumBinomialsIsPow2(n: nat)
    ensures SumBinomials(n, 0) == Pow2(n)
  {
    if n > 0 {
      SumBinomialsIsPow2(n - 1);
      SumBinomialsPascal(n - 1, 1);
    }
  }

  // ---------------------------------------------------------------------
  // get_all_possible_sets

  /**
   * Completeness: every subsequence of the requested size (any non-empty
   * size when k is omitted) is listed.
   */
  lemma GetAllPossibleSetsComplete<T>(nodes: seq<T>, k: Option<nat>, includeEmpty: bool, c: seq<T>)
    requires IsSubsequence(c, nodes)
    requires if k.Some? then |c| == k.value else 1 <= |c|
    ensures c in GetAllPossibleSets(nodes, k, includeEmpty)
  {
    if k.Some? {
      CombinationsComplete(nodes, k.value, c);
    } else {
      AllSizesComplete(nodes, 1, c);
    }
  }

  lemma {:induction false} AllSizesComplete<T>(s: seq<T>, size: nat, c: seq<T>)
    requires IsSubsequence(c, s) && size <= |c|
    ensures c in AllSizes(s, size)
    decreases |s| + 1 - size
  {
    SubsequenceLength(c, s);
    var tier := Combinations(s, size);
    var rest := AllSizes(s, size + 1);
    assert AllSizes(s, size) == tier + rest;
    if |c| == size {
      assert c in tier by {
        CombinationsComplete(s, size, c);
      }
      InConcat(tier, rest, c);
    } else {
      assert c in rest by {
        AllSizesComplete(s, size + 1, c);
      }
      InConcat(tier, rest, c);
    }
  }

  /** An element of either part is an element of the concatenation. */
  lemma InConcat<T>(s: seq<T>, t: seq<T>, x: T)
    requires x in s || x in t
    ensures x in s + t
  {
    if x !in s {
      var i :| 0 <= i < |t| && t[i] == x;
      assert (s + t)[|s| + i] == x;
    }
  }

  /** Asking for more nodes than there are gives no combination at all. */
  lemma GetAllPossibleSetsTooLarge<T>(nodes: seq<T>, k: nat, includeEmpty: bool)
    requires k > |nodes|
    ensures GetAllPossibleSets(nodes, Some(k), includeEmpty) == (if includeEmpty then [[]] else [])
  {
    BinomialAboveN(|nodes|, k);
    CombinationsShape(nodes, k);
  }

  /**
   * For nodes without repetitions the listed combinations are pairwise
   * different, except that k = 0 together with `include_empty` lists the
   * empty combination twice.
   */
  lemma GetAllPossibleSetsDistinct<T>(nodes: seq<T>, k: Option<nat>, includeEmpty: bool)
    requires Distinct(nodes)
    requires !(includeEmpty && k == Some(0))
    ensures Distinct(GetAllPossibleSets(nodes, k, includeEmpty))
  {
    var sets := if k.None? then AllSizes(nodes, 1) else Combinations(nodes, k.value);
    if k.None? {
      AllSizesDistinct(nodes, 1);
      AllSizesShape(nodes, 1);
    } else {
      CombinationsDistinct(nodes, k.value);
      CombinationsShape(nodes, k.value);
    }
    if includeEmpty {
      DistinctConcat(sets, [[]]);
    }
  }

  lemma {:induction false} AllSizesDistinct<T>(s: seq<T>, size: nat)
    requires Distinct(s)
    ensures Distinct(AllSizes(s, size))
    decreases |s| + 1 - size
  {
    if size <= |s| {
      CombinationsDistinct(s, size);
      AllSizesDistinct(s, size + 1);
      AllSizesDistinctStep(s, size);
    }
  }

  /** The step of `AllSizesDistinct`: the tier of one size is disjoint from the longer ones after it. */
  lemma AllSizesDistinctStep<T>(s: seq<T>, size: nat)
    requires size <= |s| && Distinct(Combinations(s, size)) && Distinct(AllSizes(s, size + 1))
    ensures Distinct(AllSizes(s, size))
  {
    CombinationsSizes(s, size);
    AllSizesSizes(s, size + 1);
    DistinctBySize(Combinations(s, size), AllSizes(s, size + 1), size, |s|);
    AllSizesUnfold(s, size);
  }

  /** Sequences of one length followed by longer ones: joining keeps them pairwise different. */
  lemma DistinctBySize<T>(a: seq<seq<T>>, b: seq<seq<T>>, k: nat, hi: nat)
    requires Distinct(a) && Distinct(b) && SizesWithin(a, k, k) && SizesWithin(b, k + 1, hi)
    ensures Distinct(a + b)
  {
    forall i, j | 0 <= i < |a| && 0 <= j < |b| ensures a[i] != b[j] {
      assert |a[i]| == k < |b[j]|;
    }
    DistinctConcat(a, b);
  }
}
