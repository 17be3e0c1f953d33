/**
 * The state of GrafoDisperso's breadth-first search, stated on values, and the
 * steps that keep it.  R is the result list (nodes in discovery order), D the
 * distance array (-1 for an undiscovered node), h the number of nodes already
 * taken off the queue, which holds R[h..].  The start node is `start`, the
 * depth bound K and the graph has the nodes [0, n).
 */
module Traversal {
  import opened Csr

  /**
   * The labelling part of the state: R lists distinct nodes starting with
   * `start`, exactly the nodes D labels; each label is at most K and the node
   * lies within that many hops; labels never decrease along R, and the last
   * node of R carries the largest label.
   */
  ghost predicate Labelled(edges: set<(int, int)>, n: int, start: int, K: nat, R: seq<int>, D: seq<int>) {
    && |D| == n && 0 <= start < n
    && 0 < |R| <= n && R[0] == start && D[start] == 0
    && (forall i :: 0 <= i < |R| ==> 0 <= R[i] < n)
    && Distinct(R)
    && (forall v :: 0 <= v < n ==> (D[v] != -1 <==> v in R))
    && (forall v :: 0 <= v < n && D[v] != -1 ==> 0 <= D[v] <= K && v in Ball(edges, start, D[v]))
    && (forall i, j :: 0 <= i <= j < |R| ==> D[R[i]] <= D[R[j]])
    && (forall v :: 0 <= v < n && D[v] != -1 ==> D[v] <= D[R[|R| - 1]])
  }

  /**
   * The nodes of `done` have been expanded: an edge out of one of them whose
   * label is below K leads to a labelled node at most one level further.
   */
  ghost predicate Closed(edges: set<(int, int)>, K: nat, D: seq<int>, done: seq<int>) {
    forall u, v :: u in done && 0 <= u < |D| && 0 <= v < |D| && (u, v) in edges && 0 <= D[u] < K ==>
      D[v] != -1 && D[v] <= D[u] + 1
  }

  /** The state at the head of the outer loop. */
  ghost predicate Queued(edges: set<(int, int)>, n: int, start: int, K: nat, R: seq<int>, D: seq<int>, h: int) {
    && Labelled(edges, n, start, K, R, D)
    && 0 <= h <= |R|
    && (h < |R| ==> D[R[|R| - 1]] <= D[R[h]] + 1)
    && Closed(edges, K, D, R[..h])
  }

  /**
   * The state while the neighbours `fila` of the node R[h - 1] (label below K)
   * are scanned, k of them done: each scanned one is labelled at most one
   * level below R[h - 1].
   */
  ghost predicate Scanning(edges: set<(int, int)>, n: int, start: int, K: nat, R: seq<int>, D: seq<int>, h: int,
                           fila: seq<int>, k: int)
  {
    && Labelled(edges, n, start, K, R, D)
    && 1 <= h <= |R|
    && 0 <= D[R[h - 1]] < K
    && D[R[|R| - 1]] <= D[R[h - 1]] + 1
    && IsSortedListing(fila, Row(edges, R[h - 1]))
    && (forall p :: 0 <= p < |fila| ==> 0 <= fila[p] < n)
    && 0 <= k <= |fila|
    && (forall p :: 0 <= p < k ==> D[fila[p]] != -1 && D[fila[p]] <= D[R[h - 1]] + 1)
    && Closed(edges, K, D, R[..h - 1])
  }

  /** The state right after the start node is queued. */
  lemma QueuedStart(edges: set<(int, int)>, n: int, start: int, K: nat, D: seq<int>)
    requires 0 <= start < n
    requires |D| == n && D[start] == 0
    requires forall v :: 0 <= v < n && v != start ==> D[v] == -1
    ensures Queued(edges, n, start, K, [start], D, 0)
  {
  }

  /** A dequeued node already at depth K is not expanded. */
  lemma QueuedDeep(edges: set<(int, int)>, n: int, start: int, K: nat, R: seq<int>, D: seq<int>, h: int)
    requires Queued(edges, n, start, K, R, D, h)
    requires h < |R| && D[R[h]] >= K
    ensures Queued(edges, n, start, K, R, D, h + 1)
  {
    assert R[..h + 1] == R[..h] + [R[h]];
  }

  /** A dequeued node below depth K starts the scan of its neighbours. */
  lemma ScanStart(edges: set<(int, int)>, n: int, start: int, K: nat, R: seq<int>, D: seq<int>, h: int, fila: seq<int>)
    requires EdgesWithin(edges, n)
    requires Queued(edges, n, start, K, R, D, h)
    requires h < |R| && D[R[h]] < K
    requires IsSortedListing(fila, Row(edges, R[h]))
    ensures Scanning(edges, n, start, K, R, D, h + 1, fila, 0)
  {
    assert (h + 1) - 1 == h;
    forall p | 0 <= p < |fila| ensures 0 <= fila[p] < n {
      assert (R[h], fila[p]) in edges;
    }
    if h + 1 < |R| {
      assert D[R[|R| - 1]] <= D[R[h]] + 1;
    }
  }

  /** A neighbour that is already labelled needs nothing. */
  lemma ScanSeen(edges: set<(int, int)>, n: int, start: int, K: nat, R: seq<int>, D: seq<int>, h: int,
                 fila: seq<int>, k: int)
    requires Scanning(edges, n, start, K, R, D, h, fila, k)
    requires k < |fila| && D[fila[k]] != -1
    ensures Scanning(edges, n, start, K, R, D, h, fila, k + 1)
  {
  }

  /** A neighbour not yet labelled gets the next label and joins R (and the queue). */
  lemma ScanNew(edges: set<(int, int)>, n: int, start: int, K: nat, R: seq<int>, D: seq<int>, h: int,
                fila: seq<int>, k: int, v: int, u: int)
    requires Scanning(edges, n, start, K, R, D, h, fila, k)
    requires 0 <= k < |fila| && v == fila[k] && u == R[h - 1] && D[v] == -1
    ensures Scanning(edges, n, start, K, R + [v], D[v := D[u] + 1], h, fila, k + 1)
  {
    assert (u, v) in edges;
    BallStep(edges, start, D[u], u, v);
    LabelNew(edges, n, start, K, R, D, v, D[u] + 1);
    ScanRestNew(edges, n, start, K, R, D, h, fila, k, v, u);
  }

  /** The part of ScanNew past the labelling: the scan position, the scanned labels and the closed prefix. */
  lemma ScanRestNew(edges: set<(int, int)>, n: int, start: int, K: nat, R: seq<int>, D: seq<int>, h: int,
                    fila: seq<int>, k: int, v: int, u: int)
    requires Scanning(edges, n, start, K, R, D, h, fila, k)
    requires 0 <= k < |fila| && v == fila[k] && u == R[h - 1] && D[v] == -1
    ensures 1 <= h <= |R + [v]| && (R + [v])[h - 1] == u && D[v := D[u] + 1][u] == D[u]
    ensures D[v := D[u] + 1][v] == D[u] + 1
    ensures forall p :: 0 <= p < k + 1 ==>
      D[v := D[u] + 1][fila[p]] != -1 && D[v := D[u] + 1][fila[p]] <= D[u] + 1
    ensures Closed(edges, K, D[v := D[u] + 1], (R + [v])[..h - 1])
  {
    ClosedGrows(edges, K, D, R[..h - 1], v, D[u] + 1);
    assert (R + [v])[..h - 1] == R[..h - 1];
  }

  /** Labelling one more node, with a label no smaller than any before, keeps the labelling part. */
  lemma LabelNew(edges: set<(int, int)>, n: int, start: int, K: nat, R: seq<int>, D: seq<int>, v: int, d: int)
    requires Labelled(edges, n, start, K, R, D)
    requires 0 <= v < n && D[v] == -1
    requires D[R[|R| - 1]] <= d <= K && v in Ball(edges, start, d)
    ensures Labelled(edges, n, start, K, R + [v], D[v := d])
  {
    assert v !in R;
    DistinctInRange(R + [v], n);
    forall w | 0 <= w < n ensures D[v := d][w] != -1 <==> w in R + [v] {
      assert w in R + [v] <==> w in R || w == v;
    }
    OrderExtends(R, D, v, d);
  }

  /** Appending a node whose label is no smaller than the last keeps labels nondecreasing along R. */
  lemma OrderExtends(R: seq<int>, D: seq<int>, v: int, d: int)
    requires 0 < |R| && forall i :: 0 <= i < |R| ==> 0 <= R[i] < |D|
    requires 0 <= v < |D| && v !in R
    requires forall i, j :: 0 <= i <= j < |R| ==> D[R[i]] <= D[R[j]]
    requires D[R[|R| - 1]] <= d
    ensures forall i, j :: 0 <= i <= j < |R + [v]| ==> D[v := d][(R + [v])[i]] <= D[v := d][(R + [v])[j]]
  {
    var R', D' := R + [v], D[v := d];
    forall i, j | 0 <= i <= j < |R'| ensures D'[R'[i]] <= D'[R'[j]] {
      if j < |R| {
        assert R'[i] == R[i] && R'[j] == R[j];
        assert R[i] != v && R[j] != v;
      } else {
        assert R'[j] == v;
        if i < |R| {
          assert R'[i] == R[i] && R[i] != v;
          assert D[R[i]] <= D[R[|R| - 1]];
        }
      }
    }
  }

  /** Labelling a node that had no label keeps every expanded node closed. */
  lemma ClosedGrows(edges: set<(int, int)>, K: nat, D: seq<int>, done: seq<int>, v: int, d: int)
    requires Closed(edges, K, D, done)
    requires 0 <= v < |D| && D[v] == -1 && d >= 0
    requires forall u :: u in done && 0 <= u < |D| ==> D[u] != -1
    ensures Closed(edges, K, D[v := d], done)
  {
  }

  /** Pushing onto the queue appends to R. */
  lemma QueuePush(R: seq<int>, h: int, x: int)
    requires 0 <= h <= |R|
    ensures (R + [x])[h..] == R[h..] + [x]
  {
  }

  /** Popping the queue moves its head into the expanded part of R. */
  lemma QueuePop(R: seq<int>, h: int)
    requires 0 <= h < |R|
    ensures R[h..][0] == R[h] && R[h..][1..] == R[h + 1..]
  {
  }

  /** Once every neighbour is scanned, the node counts as expanded. */
  lemma ScanDone(edges: set<(int, int)>, n: int, start: int, K: nat, R: seq<int>, D: seq<int>, h: int, fila: seq<int>)
    requires Scanning(edges, n, start, K, R, D, h, fila, |fila|)
    ensures Queued(edges, n, start, K, R, D, h)
  {
    var u := R[h - 1];
    assert R[..h] == R[..h - 1] + [u];
    forall v | 0 <= v < |D| && (u, v) in edges
      ensures D[v] != -1 && D[v] <= D[u] + 1
    {
      assert v in Row(edges, u);
      var p :| 0 <= p < |fila| && fila[p] == v;
    }
    if h < |R| {
      assert D[R[h - 1]] <= D[R[h]];
    }
  }

  /**
   * When the queue is empty, R holds exactly the nodes within K hops of
   * `start`, nearer nodes before farther ones.
   */
  lemma BfsOutcome(edges: set<(int, int)>, n: int, start: int, K: nat, R: seq<int>, D: seq<int>)
    requires EdgesWithin(edges, n)
    requires Queued(edges, n, start, K, R, D, |R|)
    ensures forall v :: v in R <==> v in Ball(edges, start, K)
    ensures forall i, j, k: nat :: 0 <= i <= j < |R| && R[j] in Ball(edges, start, k) ==> R[i] in Ball(edges, start, k)
  {
    assert R[..|R|] == R;
    forall k: nat | k <= K
      ensures forall v :: v in Ball(edges, start, k) ==> 0 <= v < |D| && 0 <= D[v] <= k
    {
      BallLabelled(edges, start, K, D, k);
    }
    forall v | v in R ensures v in Ball(edges, start, K) {
      BallMonotone(edges, start, D[v], K);
    }
    forall i, j, k: nat | 0 <= i <= j < |R| && R[j] in Ball(edges, start, k)
      ensures R[i] in Ball(edges, start, k)
    {
      if k < K {
        BallMonotone(edges, start, D[R[i]], k);
      } else {
        BallMonotone(edges, start, D[R[i]], K);
        BallMonotone(edges, start, K, k);
      }
    }
  }

  /** With depth bound 0 a duplicate-free result that starts at `start` and holds only Ball 0 is just [start]. */
  lemma ZeroDepth(edges: set<(int, int)>, start: int, R: seq<int>)
    requires |R| > 0 && R[0] == start && Distinct(R)
    requires forall v :: v in R ==> v in Ball(edges, start, 0)
    ensures R == [start]
  {
    DistinctCard(R);
    assert Elems(R) <= {start};
    SubsetCard(Elems(R), {start});
    assert R == [R[0]];
  }

  // ---------------------------------------------------------------------------
  // Discovery order.  P[j] is the position in R of the node whose scan
  // appended R[j]: the queue is FIFO and each scan visits the neighbours in
  // ascending order, so R is ordered by discoverer first and by node id next.

  /**
   * The first position at or after i whose node has an edge to v, or |R| if
   * there is none.
   */
  ghost function FirstFrom(edges: set<(int, int)>, R: seq<int>, v: int, i: nat): (r: nat)
    requires i <= |R|
    ensures i <= r <= |R|
    ensures r < |R| ==> (R[r], v) in edges
    ensures forall q :: i <= q < r ==> (R[q], v) !in edges
    decreases |R| - i
  {
    if i == |R| then |R|
    else if (R[i], v) in edges then i
    else FirstFrom(edges, R, v, i + 1)
  }

  /** The first node of R, by position, with an edge to v. */
  ghost function Discoverer(edges: set<(int, int)>, R: seq<int>, v: int): nat
    requires |R| > 0
  {
    FirstFrom(edges, R, v, 0)
  }

  /**
   * P records who discovered every node of R after the start: an earlier
   * node with an edge to it and no edge from any node before that one; and R
   * is sorted by discoverer, ties broken by ascending node id.
   */
  ghost predicate Discovered(edges: set<(int, int)>, R: seq<int>, P: seq<int>) {
    && |P| == |R|
    && (forall j {:trigger P[j]} :: 1 <= j < |R| ==> 0 <= P[j] < j && (R[P[j]], R[j]) in edges)
    && (forall j, i {:trigger P[j], R[i]} :: 1 <= j < |R| && 0 <= i < P[j] ==> (R[i], R[j]) !in edges)
    && (forall j, l {:trigger P[j], P[l]} :: 1 <= j < l < |R| ==> P[j] < P[l] || (P[j] == P[l] && R[j] < R[l]))
  }

  /** Discovery order while h nodes have left the queue: all discoverers among them. */
  ghost predicate Order(edges: set<(int, int)>, R: seq<int>, P: seq<int>, h: int) {
    && Discovered(edges, R, P)
    && (forall j {:trigger P[j]} :: 1 <= j < |R| ==> P[j] < h)
  }

  /**
   * Discovery order while R[h - 1] scans `fila`, k entries done: every node
   * it discovered so far is smaller than the next entry.
   */
  ghost predicate OrderScan(edges: set<(int, int)>, R: seq<int>, P: seq<int>, h: int, fila: seq<int>, k: int) {
    && Discovered(edges, R, P)
    && (forall j {:trigger P[j]} :: 1 <= j < |R| ==>
          P[j] <= h - 1 && (P[j] == h - 1 && 0 <= k < |fila| ==> R[j] < fila[k]))
  }

  lemma DiscStart(edges: set<(int, int)>, start: int)
    ensures Order(edges, [start], [0], 0)
  {
  }

  lemma DiscDeep(edges: set<(int, int)>, R: seq<int>, P: seq<int>, h: int)
    requires Order(edges, R, P, h)
    ensures Order(edges, R, P, h + 1)
  {
  }

  lemma DiscScanStart(edges: set<(int, int)>, R: seq<int>, P: seq<int>, h: int, fila: seq<int>)
    requires Order(edges, R, P, h)
    ensures OrderScan(edges, R, P, h + 1, fila, 0)
  {
  }

  /** Skipping a neighbour that is already labelled keeps the order. */
  lemma DiscSeen(edges: set<(int, int)>, R: seq<int>, P: seq<int>, h: int, fila: seq<int>, k: int)
    requires OrderScan(edges, R, P, h, fila, k)
    requires 0 <= k < |fila| && StrictlyAscending(fila)
    ensures OrderScan(edges, R, P, h, fila, k + 1)
  {
    forall j | 1 <= j < |R| && P[j] == h - 1 && k + 1 < |fila|
      ensures R[j] < fila[k + 1]
    {
      assert R[j] < fila[k] < fila[k + 1];
    }
  }

  /**
   * Appending an unlabelled neighbour of R[h - 1] records R[h - 1] as its
   * discoverer.
   */
  lemma DiscNew(edges: set<(int, int)>, n: int, start: int, K: nat, R: seq<int>, D: seq<int>, h: int,
                fila: seq<int>, k: int, v: int, P: seq<int>, p: int)
    requires Scanning(edges, n, start, K, R, D, h, fila, k)
    requires OrderScan(edges, R, P, h, fila, k)
    requires 0 <= k < |fila| && v == fila[k] && D[v] == -1 && p == h - 1
    ensures OrderScan(edges, R + [v], P + [p], h, fila, k + 1)
  {
    FirstParent(edges, n, start, K, R, D, h, fila, k, v);
    DiscAppend(edges, R, P, h, fila, k, v);
  }

  /**
   * An unlabelled neighbour of R[h - 1] has no edge from a node before
   * R[h - 1]: those were all expanded and would have labelled it.
   */
  lemma FirstParent(edges: set<(int, int)>, n: int, start: int, K: nat, R: seq<int>, D: seq<int>, h: int,
                    fila: seq<int>, k: int, v: int)
    requires Scanning(edges, n, start, K, R, D, h, fila, k)
    requires 0 <= k < |fila| && v == fila[k] && D[v] == -1
    ensures (R[h - 1], v) in edges
    ensures forall i :: 0 <= i < h - 1 ==> (R[i], v) !in edges
  {
    assert v in Row(edges, R[h - 1]);
    forall i | 0 <= i < h - 1
      ensures (R[i], v) !in edges
    {
      assert R[i] in R[..h - 1];
      assert D[R[i]] <= D[R[h - 1]];
      assert R[i] in R;
    }
  }

  /** Appending v with discoverer R[h - 1], the first node with an edge to it, keeps the order. */
  lemma DiscAppend(edges: set<(int, int)>, R: seq<int>, P: seq<int>, h: int, fila: seq<int>, k: int, v: int)
    requires OrderScan(edges, R, P, h, fila, k)
    requires 1 <= h <= |R| && 0 <= k < |fila| && v == fila[k] && StrictlyAscending(fila)
    requires (R[h - 1], v) in edges
    requires forall i :: 0 <= i < h - 1 ==> (R[i], v) !in edges
    ensures OrderScan(edges, R + [v], P + [h - 1], h, fila, k + 1)
  {
    var R', P' := R + [v], P + [h - 1];
    DiscoveredAppend(edges, R, P, h - 1, v);
    forall j | 1 <= j < |R'|
      ensures P'[j] <= h - 1 && (P'[j] == h - 1 && k + 1 < |fila| ==> R'[j] < fila[k + 1])
    {
      if j < |R| {
        assert P'[j] == P[j] && R'[j] == R[j];
        if P[j] == h - 1 && k + 1 < |fila| {
          assert R[j] < fila[k] < fila[k + 1];
        }
      } else if k + 1 < |fila| {
        assert fila[k] < fila[k + 1];
      }
    }
  }

  /**
   * Appending v with discoverer R[p], the first node with an edge to v and
   * no earlier than any discoverer so far, and larger than the nodes R[p]
   * discovered before it, keeps the discovery record.
   */
  lemma DiscoveredAppend(edges: set<(int, int)>, R: seq<int>, P: seq<int>, p: int, v: int)
    requires Discovered(edges, R, P)
    requires 0 <= p < |R| && (R[p], v) in edges
    requires forall i :: 0 <= i < p ==> (R[i], v) !in edges
    requires forall j {:trigger P[j]} :: 1 <= j < |R| ==> P[j] <= p && (P[j] == p ==> R[j] < v)
    ensures Discovered(edges, R + [v], P + [p])
  {
    var R', P' := R + [v], P + [p];
    forall j | 1 <= j < |R'|
      ensures 0 <= P'[j] < j && (R'[P'[j]], R'[j]) in edges
    {
      if j < |R| {
        assert P'[j] == P[j] && R'[j] == R[j] && R'[P[j]] == R[P[j]];
      } else {
        assert R'[p] == R[p];
      }
    }
    forall j, i | 1 <= j < |R'| && 0 <= i < P'[j]
      ensures (R'[i], R'[j]) !in edges
    {
      assert R'[i] == R[i];
      if j < |R| {
        assert P'[j] == P[j] && R'[j] == R[j];
      }
    }
    forall j, l | 1 <= j < l < |R'|
      ensures P'[j] < P'[l] || (P'[j] == P'[l] && R'[j] < R'[l])
    {
      assert P'[j] == P[j] && R'[j] == R[j];
    }
  }

  lemma DiscDone(edges: set<(int, int)>, R: seq<int>, P: seq<int>, h: int, fila: seq<int>)
    requires OrderScan(edges, R, P, h, fila, |fila|)
    ensures Order(edges, R, P, h)
  {
  }

  /** A position with an edge to v and none before it is the first such position. */
  lemma {:induction false} FirstFromIs(edges: set<(int, int)>, R: seq<int>, v: int, i: nat, p: int)
    requires i <= p < |R| && (R[p], v) in edges
    requires forall q :: i <= q < p ==> (R[q], v) !in edges
    ensures FirstFrom(edges, R, v, i) == p
    decreases p - i
  {
    if i < p {
      FirstFromIs(edges, R, v, i + 1, p);
    }
  }

  /**
   * R lists the nodes after the start by the position of their first
   * in-neighbour in R (which comes earlier), and by ascending id when that
   * is shared.
   */
  ghost predicate DiscoveryOrder(edges: set<(int, int)>, R: seq<int>)
    requires |R| > 0
  {
    && (forall j {:trigger Discoverer(edges, R, R[j])} :: 0 < j < |R| ==>
          Discoverer(edges, R, R[j]) < j && (R[Discoverer(edges, R, R[j])], R[j]) in edges)
    && (forall j, l {:trigger Discoverer(edges, R, R[j]), Discoverer(edges, R, R[l])} :: 0 < j < l < |R| ==>
          || Discoverer(edges, R, R[j]) < Discoverer(edges, R, R[l])
          || (Discoverer(edges, R, R[j]) == Discoverer(edges, R, R[l]) && R[j] < R[l]))
  }

  /** The recorded discoverers are the first nodes of R with an edge to each node. */
  lemma DiscOutcome(edges: set<(int, int)>, R: seq<int>, P: seq<int>)
    requires |R| > 0 && Discovered(edges, R, P)
    ensures DiscoveryOrder(edges, R)
  {
    forall j | 0 < j < |R| ensures Discoverer(edges, R, R[j]) == P[j] {
      FirstFromIs(edges, R, R[j], 0, P[j]);
    }
  }

  /** With two edges out of node 0, its neighbours are listed in ascending order and no other. */
  lemma DiscoveryOrderExample()
    ensures DiscoveryOrder({(0, 1), (0, 2)}, [0, 1, 2])
    ensures !DiscoveryOrder({(0, 1), (0, 2)}, [0, 2, 1])
  {
    var edges := {(0, 1), (0, 2)};
    assert Discoverer(edges, [0, 1, 2], 1) == 0 && Discoverer(edges, [0, 1, 2], 2) == 0;
    var swapped := [0, 2, 1];
    assert Discoverer(edges, swapped, swapped[1]) == 0 && Discoverer(edges, swapped, swapped[2]) == 0;
  }
}
