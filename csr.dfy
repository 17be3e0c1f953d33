/**
 * The compressed sparse row (CSR) layout of a directed graph, stated on plain
 * values: an offsets sequence `rowPtr` of length n + 1 and a flat sequence
 * `valores` holding, for every source node in turn, its destinations in
 * ascending order.  Also the nodes within k directed hops of a start node,
 * the reference against which the breadth-first search is proved.
 */
module Csr {

  /** The destinations of the edges that leave node `i`. */
  function Row(edges: set<(int, int)>, i: int): (r: set<int>)
    ensures forall v :: v in r <==> (i, v) in edges
  {
    set e | e in edges && e.0 == i :: e.1
  }

  predicate StrictlyAscending(s: seq<int>) {
    forall i, j :: 0 <= i < j < |s| ==> s[i] < s[j]
  }

  /** `s` lists the elements of `elems`, each once, in ascending order. */
  ghost predicate IsSortedListing(s: seq<int>, elems: set<int>) {
    && StrictlyAscending(s)
    && (forall i :: 0 <= i < |s| ==> s[i] in elems)
    && (forall x :: x in elems ==> exists i :: 0 <= i < |s| && s[i] == x)
  }

  predicate Distinct(s: seq<int>) {
    forall i, j :: 0 <= i < j < |s| ==> s[i] != s[j]
  }

  function Elems(s: seq<int>): set<int> {
    set x | x in s
  }

  /** The node ids 0 .. n - 1. */
  function Range(n: nat): (r: set<int>)
    ensures forall i :: i in r <==> 0 <= i < n
    ensures |r| == n
  {
    if n == 0 then {} else Range(n - 1) + {n - 1}
  }

  /** Every edge joins two nodes of [0, n). */
  ghost predicate EdgesWithin(edges: set<(int, int)>, n: int) {
    forall e :: e in edges ==> 0 <= e.0 < n && 0 <= e.1 < n
  }

  /**
   * The CSR invariant: offsets start at 0, never decrease and end at the
   * length of `valores`; every edge joins two nodes of [0, n); and the slice
   * of node i lists the destinations of i in ascending order.
   */
  ghost predicate IsCsr(rowPtr: seq<int>, valores: seq<int>, n: int, edges: set<(int, int)>) {
    && n >= 0
    && |rowPtr| == n + 1
    && rowPtr[0] == 0
    && (forall i, j :: 0 <= i <= j <= n ==> rowPtr[i] <= rowPtr[j])
    && rowPtr[n] == |valores|
    && EdgesWithin(edges, n)
    && (forall i {:trigger Row(edges, i)} :: 0 <= i < n ==>
          IsSortedListing(valores[rowPtr[i]..rowPtr[i + 1]], Row(edges, i)))
  }

  // ---------------------------------------------------------------------------
  // Cardinalities

  lemma {:induction false} DistinctCard(s: seq<int>)
    requires Distinct(s)
    ensures |Elems(s)| == |s|
  {
    if s != [] {
      var prefix := s[..|s| - 1];
      DistinctCard(prefix);
      assert Elems(s) == Elems(prefix) + {s[|s| - 1]};
      assert s[|s| - 1] !in Elems(prefix);
    }
  }

  /** A duplicate-free sequence of nodes of [0, n) has at most n elements. */
  lemma DistinctInRange(s: seq<int>, n: nat)
    requires Distinct(s)
    requires forall i :: 0 <= i < |s| ==> 0 <= s[i] < n
    ensures |s| <= n
  {
    DistinctCard(s);
    assert Elems(s) <= Range(n);
    SubsetCard(Elems(s), Range(n));
  }

  lemma SubsetCard(a: set<int>, b: set<int>)
    requires a <= b
    ensures |a| <= |b|
  {
    assert b == a + (b - a);
  }

  /** A sorted listing of a set is as long as the set is large. */
  lemma SortedListingCard(s: seq<int>, elems: set<int>)
    requires IsSortedListing(s, elems)
    ensures |s| == |elems|
  {
    DistinctCard(s);
    forall x | x in elems ensures x in Elems(s) {
      var i :| 0 <= i < |s| && s[i] == x;
    }
    assert Elems(s) == elems;
  }

  /** A set has exactly one sorted listing. */
  lemma {:induction false} SortedListingUnique(a: seq<int>, b: seq<int>, elems: set<int>)
    requires IsSortedListing(a, elems) && IsSortedListing(b, elems)
    ensures a == b
    decreases |a|
  {
    SortedListingCard(a, elems);
    SortedListingCard(b, elems);
    if a != [] {
      SortedListingHeads(a, b, elems);
      ListingTail(a, elems);
      ListingTail(b, elems);
      SortedListingUnique(a[1..], b[1..], elems - {a[0]});
      assert a == [a[0]] + a[1..];
      assert b == [b[0]] + b[1..];
    }
  }

  /** Two sorted listings of the same set start with its least element. */
  lemma SortedListingHeads(a: seq<int>, b: seq<int>, elems: set<int>)
    requires IsSortedListing(a, elems) && IsSortedListing(b, elems)
    requires a != [] && b != []
    ensures a[0] == b[0]
  {
    assert a[0] in elems && b[0] in elems;
    var i :| 0 <= i < |b| && b[i] == a[0];
    var j :| 0 <= j < |a| && a[j] == b[0];
    assert a[0] <= a[j] && b[0] <= b[i];
  }

  /** Dropping the least element of a sorted listing lists the rest of the set. */
  lemma ListingTail(s: seq<int>, elems: set<int>)
    requires IsSortedListing(s, elems) && s != []
    ensures IsSortedListing(s[1..], elems - {s[0]})
  {
    forall x | x in elems - {s[0]}
      ensures exists i :: 0 <= i < |s[1..]| && s[1..][i] == x
    {
      var k :| 0 <= k < |s| && s[k] == x;
      assert k != 0;
      assert s[1..][k - 1] == x;
    }
    forall i | 0 <= i < |s[1..]| ensures s[1..][i] in elems - {s[0]} {
      assert s[1..][i] == s[i + 1] && s[0] < s[i + 1];
    }
  }

  /**
   * The elements of `elems` that lie in [lo, hi), in ascending order: a set
   * turned into a vector and sorted.
   */
  function SortedElements(elems: set<int>, lo: int, hi: int): (s: seq<int>)
    ensures StrictlyAscending(s)
    ensures forall k :: 0 <= k < |s| ==> s[k] in elems && lo <= s[k] < hi
    decreases hi - lo
  {
    if lo >= hi then []
    else
      var rest := SortedElements(elems, lo + 1, hi);
      if lo in elems then [lo] + rest else rest
  }

  /** SortedElements leaves out no element of the range. */
  lemma {:induction false} SortedElementsComplete(elems: set<int>, lo: int, hi: int, x: int)
    requires x in elems && lo <= x < hi
    ensures exists k :: 0 <= k < |SortedElements(elems, lo, hi)| && SortedElements(elems, lo, hi)[k] == x
    decreases hi - lo
  {
    var s := SortedElements(elems, lo, hi);
    if x == lo {
      assert s[0] == x;
    } else {
      SortedElementsComplete(elems, lo + 1, hi, x);
      var rest := SortedElements(elems, lo + 1, hi);
      var k :| 0 <= k < |rest| && rest[k] == x;
      if lo in elems {
        assert s[k + 1] == x;
      } else {
        assert s[k] == x;
      }
    }
  }

  /** Every set of nodes below `hi` has SortedElements as its sorted listing. */
  lemma SortedElementsListing(elems: set<int>, hi: int)
    requires forall x :: x in elems ==> 0 <= x < hi
    ensures IsSortedListing(SortedElements(elems, 0, hi), elems)
  {
    forall x | x in elems
      ensures exists k :: 0 <= k < |SortedElements(elems, 0, hi)| && SortedElements(elems, 0, hi)[k] == x
    {
      SortedElementsComplete(elems, 0, hi, x);
    }
  }

  /** The edges that leave node `i`, as pairs. */
  function RowPairs(edges: set<(int, int)>, i: int): set<(int, int)> {
    set e | e in edges && e.0 == i
  }

  /** The pairs (i, v) for the entries v of `s`. */
  function PairsOf(i: int, s: seq<int>): set<(int, int)> {
    set k | 0 <= k < |s| :: (i, s[k])
  }

  lemma {:induction false} PairsOfCard(i: int, s: seq<int>)
    requires Distinct(s)
    ensures |PairsOf(i, s)| == |s|
  {
    if s != [] {
      var prefix := s[..|s| - 1];
      PairsOfCard(i, prefix);
      assert PairsOf(i, s) == PairsOf(i, prefix) + {(i, s[|s| - 1])};
      assert (i, s[|s| - 1]) !in PairsOf(i, prefix);
    }
  }

  /** Node i has as many outgoing pairs as any listing of its row has entries. */
  lemma RowPairsCard(edges: set<(int, int)>, i: int, s: seq<int>)
    requires IsSortedListing(s, Row(edges, i))
    ensures |RowPairs(edges, i)| == |Row(edges, i)|
  {
    forall e | e in RowPairs(edges, i) ensures e in PairsOf(i, s) {
      assert e.1 in Row(edges, i) by {
        assert e in edges && e.0 == i;
      }
      var k :| 0 <= k < |s| && s[k] == e.1;
      assert e == (i, s[k]);
    }
    assert RowPairs(edges, i) == PairsOf(i, s);
    PairsOfCard(i, s);
    SortedListingCard(s, Row(edges, i));
  }

  /** The out-degrees of nodes 0 .. k - 1, added up. */
  function RowSizeSum(edges: set<(int, int)>, k: nat): nat {
    if k == 0 then 0 else RowSizeSum(edges, k - 1) + |Row(edges, k - 1)|
  }

  lemma {:induction false} RowSizeSumMonotone(edges: set<(int, int)>, a: nat, b: nat)
    requires a <= b
    ensures RowSizeSum(edges, a) <= RowSizeSum(edges, b)
    decreases b
  {
    if a < b {
      RowSizeSumMonotone(edges, a, b - 1);
    }
  }

  function Below(edges: set<(int, int)>, k: int): set<(int, int)> {
    set e | e in edges && e.0 < k
  }

  lemma {:induction false} RowSizeSumBelow(rowPtr: seq<int>, valores: seq<int>, n: int, edges: set<(int, int)>, k: nat)
    requires IsCsr(rowPtr, valores, n, edges)
    requires k <= n
    ensures RowSizeSum(edges, k) == |Below(edges, k)|
  {
    if k == 0 {
      assert Below(edges, 0) == {};
    } else {
      RowSizeSumBelow(rowPtr, valores, n, edges, k - 1);
      BelowStep(edges, k);
      var s := valores[rowPtr[k - 1]..rowPtr[k]];
      assert IsSortedListing(s, Row(edges, k - 1));
      RowPairsCard(edges, k - 1, s);
      assert RowSizeSum(edges, k) == RowSizeSum(edges, k - 1) + |Row(edges, k - 1)|;
    }
  }

  /** The edges leaving nodes below k are those leaving nodes below k - 1 and those leaving k - 1. */
  lemma BelowStep(edges: set<(int, int)>, k: int)
    ensures |Below(edges, k)| == |Below(edges, k - 1)| + |RowPairs(edges, k - 1)|
  {
    assert Below(edges, k) == Below(edges, k - 1) + RowPairs(edges, k - 1);
    assert Below(edges, k - 1) !! RowPairs(edges, k - 1);
  }

  /**
   * Under the CSR invariant the out-degrees of the nodes of [0, n) add up to
   * the number of edges.
   */
  lemma DegreesAddUpToEdges(rowPtr: seq<int>, valores: seq<int>, n: int, edges: set<(int, int)>)
    requires IsCsr(rowPtr, valores, n, edges)
    ensures RowSizeSum(edges, n) == |edges|
  {
    RowSizeSumBelow(rowPtr, valores, n, edges, n);
    assert Below(edges, n) == edges;
  }

  // ---------------------------------------------------------------------------
  // Consequences of the CSR invariant

  /** The slice of node i is as long as the out-degree of i. */
  lemma SliceLength(rowPtr: seq<int>, valores: seq<int>, n: int, edges: set<(int, int)>, i: int)
    requires IsCsr(rowPtr, valores, n, edges)
    requires 0 <= i < n
    ensures rowPtr[i + 1] - rowPtr[i] == |Row(edges, i)|
  {
    SortedListingCard(valores[rowPtr[i]..rowPtr[i + 1]], Row(edges, i));
  }

  /** Every offset is the sum of the out-degrees of the nodes before it. */
  lemma {:induction false} OffsetIsPrefixSum(rowPtr: seq<int>, valores: seq<int>, n: int, edges: set<(int, int)>, k: nat)
    requires IsCsr(rowPtr, valores, n, edges)
    requires k <= n
    ensures rowPtr[k] == RowSizeSum(edges, k)
  {
    if k > 0 {
      OffsetIsPrefixSum(rowPtr, valores, n, edges, k - 1);
      SliceLength(rowPtr, valores, n, edges, k - 1);
    }
  }

  /** Under the CSR invariant the flat array holds one entry per edge. */
  lemma CsrEdgeCount(rowPtr: seq<int>, valores: seq<int>, n: int, edges: set<(int, int)>)
    requires IsCsr(rowPtr, valores, n, edges)
    ensures |valores| == |edges|
  {
    OffsetIsPrefixSum(rowPtr, valores, n, edges, n);
    DegreesAddUpToEdges(rowPtr, valores, n, edges);
  }

  /**
   * The CSR layout of a graph is unique: two layouts of the same edge set
   * over the same node count are equal.
   */
  lemma CsrUnique(rowPtr1: seq<int>, valores1: seq<int>, rowPtr2: seq<int>, valores2: seq<int>,
                  n: int, edges: set<(int, int)>)
    requires IsCsr(rowPtr1, valores1, n, edges)
    requires IsCsr(rowPtr2, valores2, n, edges)
    ensures rowPtr1 == rowPtr2 && valores1 == valores2
  {
    forall k | 0 <= k <= n ensures rowPtr1[k] == rowPtr2[k] {
      OffsetIsPrefixSum(rowPtr1, valores1, n, edges, k);
      OffsetIsPrefixSum(rowPtr2, valores2, n, edges, k);
    }
    SamePrefixes(rowPtr1, valores1, valores2, n, edges, n);
    assert valores1 == valores1[..rowPtr1[n]];
    assert valores2 == valores2[..rowPtr1[n]];
  }

  lemma {:induction false} SamePrefixes(rowPtr: seq<int>, valores1: seq<int>, valores2: seq<int>,
                                        n: int, edges: set<(int, int)>, k: nat)
    requires IsCsr(rowPtr, valores1, n, edges)
    requires IsCsr(rowPtr, valores2, n, edges)
    requires k <= n
    ensures valores1[..rowPtr[k]] == valores2[..rowPtr[k]]
  {
    if k > 0 {
      SamePrefixes(rowPtr, valores1, valores2, n, edges, k - 1);
      var a, b := rowPtr[k - 1], rowPtr[k];
      SortedListingUnique(valores1[a..b], valores2[a..b], Row(edges, k - 1));
      assert valores1[..b] == valores1[..a] + valores1[a..b];
      assert valores2[..b] == valores2[..a] + valores2[a..b];
    }
  }

  // ---------------------------------------------------------------------------
  // Nodes within k directed hops

  /** The nodes one edge away from some node of `from`. */
  function Successors(edges: set<(int, int)>, from: set<int>): set<int> {
    set e | e in edges && e.0 in from :: e.1
  }

  /** The target of an edge out of `from` is a successor. */
  lemma SuccessorOf(edges: set<(int, int)>, from: set<int>, u: int, v: int)
    requires u in from && (u, v) in edges
    ensures v in Successors(edges, from)
  {
    var e := (u, v);
    assert e in edges && e.0 in from;
  }

  /** Every successor is reached by an edge out of `from`. */
  lemma SuccessorSource(edges: set<(int, int)>, from: set<int>, v: int) returns (u: int)
    requires v in Successors(edges, from)
    ensures u in from && (u, v) in edges
  {
    var e :| e in edges && e.0 in from && e.1 == v;
    u := e.0;
    assert e == (u, v);
  }

  /** The nodes reachable from `start` by following at most k edges forwards. */
  function Ball(edges: set<(int, int)>, start: int, k: nat): set<int> {
    if k == 0 then {start}
    else Ball(edges, start, k - 1) + Successors(edges, Ball(edges, start, k - 1))
  }

  /** Following one more edge from a node within k hops reaches a node within k + 1 hops. */
  lemma BallStep(edges: set<(int, int)>, start: int, k: nat, u: int, v: int)
    requires u in Ball(edges, start, k) && (u, v) in edges
    ensures v in Ball(edges, start, k + 1)
  {
    SuccessorOf(edges, Ball(edges, start, k), u, v);
  }

  lemma {:induction false} BallMonotone(edges: set<(int, int)>, start: int, a: nat, b: nat)
    requires a <= b
    ensures Ball(edges, start, a) <= Ball(edges, start, b)
    decreases b
  {
    if a < b {
      BallMonotone(edges, start, a, b - 1);
      BallGrows(edges, start, b - 1);
    }
  }

  lemma BallGrows(edges: set<(int, int)>, start: int, k: nat)
    ensures Ball(edges, start, k) <= Ball(edges, start, k + 1)
  {
    var prev := Ball(edges, start, k);
    assert Ball(edges, start, k + 1) == prev + Successors(edges, prev);
  }

  /**
   * A labelling D that gives `start` the label 0 and is closed under edges
   * (an edge out of a node labelled d < depth leads to a node labelled at
   * most d + 1) labels every node within k <= depth hops with at most k.
   */
  lemma {:induction false} BallLabelled(edges: set<(int, int)>, start: int, depth: nat, D: seq<int>, k: nat)
    requires k <= depth
    requires 0 <= start < |D| && D[start] == 0
    requires EdgesWithin(edges, |D|)
    requires forall u, v :: 0 <= u < |D| && 0 <= v < |D| && (u, v) in edges && 0 <= D[u] < depth ==>
               0 <= D[v] <= D[u] + 1
    ensures forall v :: v in Ball(edges, start, k) ==> 0 <= v < |D| && 0 <= D[v] <= k
  {
    if k > 0 {
      BallLabelled(edges, start, depth, D, k - 1);
      forall v | v in Successors(edges, Ball(edges, start, k - 1))
        ensures 0 <= v < |D| && 0 <= D[v] <= k
      {
        var u := SuccessorSource(edges, Ball(edges, start, k - 1), v);
      }
    }
  }
}
