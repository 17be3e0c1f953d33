/**
 * GrafoDisperso: a directed graph held in compressed sparse row form.
 *
 * The C++ vectors `valores`, `column_indices` and `row_ptr` become sequence
 * fields that the loader reassigns; `num_nodos` and `num_aristas` become
 * integer fields.  The ghost field Edges is the set of directed edges the
 * fields encode, and Valid() is the class invariant that ties them together.
 */
module Grafos {
  import opened Wrappers
  import opened EdgeList
  import opened Csr
  import opened Traversal

  /** Why a load throws. */
  datatype LoadError =
    | CannotOpen    // the file could not be opened
    | NoValidEdges  // no line of the file yields an edge

  /** The destinations recorded for `origen` in the loader's map; none if absent. */
  function Fila(adjMap: map<int, set<int>>, origen: int): set<int> {
    if origen in adjMap then adjMap[origen] else {}
  }

  /**
   * The class invariant on the field values: either nothing has been loaded
   * (all counts zero, all vectors empty), or the fields are the CSR layout of
   * `edges` over numNodos nodes, with column_indices equal to valores,
   * numAristas the number of edges, and numNodos - 1 the largest endpoint of
   * an edge.
   */
  ghost predicate Consistent(valores: seq<int>, columnIndices: seq<int>, rowPtr: seq<int>,
                             numNodos: int, numAristas: int, edges: set<(int, int)>)
  {
    || (&& numNodos == 0 && numAristas == 0
        && rowPtr == [] && valores == [] && columnIndices == []
        && edges == {})
    || (&& numNodos >= 1
        && IsCsr(rowPtr, valores, numNodos, edges)
        && columnIndices == valores
        && numAristas == |valores| == |edges|
        && exists e :: e in edges && (e.0 == numNodos - 1 || e.1 == numNodos - 1))
  }

  class GrafoDisperso {
    var valores: seq<int>        // destination nodes, grouped by source
    var columnIndices: seq<int>  // column indices: a copy of valores
    var rowPtr: seq<int>         // where each source's slice starts
    var numNodos: int
    var numAristas: int

    /** The directed edges the fields encode. */
    ghost var Edges: set<(int, int)>

    /**
     * Either nothing has been loaded (all counts zero, all vectors empty), or
     * the fields are the CSR layout of Edges over numNodos nodes, with
     * column_indices equal to valores, numAristas the number of edges, and
     * numNodos - 1 the largest endpoint of an edge.
     */
    ghost predicate Valid()
      reads this
    {
      Consistent(valores, columnIndices, rowPtr, numNodos, numAristas, Edges)
    }

    /** A new graph is empty. */
    constructor ()
      ensures Valid()
      ensures numNodos == 0 && numAristas == 0
      ensures valores == [] && columnIndices == [] && rowPtr == []
      ensures Edges == {}
    {
      valores := [];
      columnIndices := [];
      rowPtr := [];
      numNodos := 0;
      numAristas := 0;
      Edges := {};
    }

    /** The node count: one more than the largest endpoint of an edge, or 0. */
    function GetNumNodos(): (n: int)
      reads this
      requires Valid()
      ensures n >= 0
      ensures n == 0 <==> Edges == {}
      ensures EdgesWithin(Edges, n)
      ensures n > 0 ==> exists e :: e in Edges && (e.0 == n - 1 || e.1 == n - 1)
    {
      numNodos
    }

    /** The edge count: the number of distinct directed edges. */
    function GetNumAristas(): (m: int)
      reads this
      requires Valid()
      ensures m == |Edges|
      ensures m == |valores|
    {
      numAristas
    }

    /**
     * The out-degree of `nodo`: the number of distinct destinations of its
     * edges, and 0 for an id outside [0, numNodos).
     */
    function ObtenerGrado(nodo: int): (grado: int)
      reads this
      requires Valid()
      ensures !(0 <= nodo < numNodos) ==> grado == 0
      ensures 0 <= nodo < numNodos ==> grado == |Row(Edges, nodo)|
    {
      if nodo < 0 || nodo >= numNodos then 0
      else
        // The guard on the size of row_ptr never fires.
        assert |rowPtr| >= nodo + 2;
        SliceLength(rowPtr, valores, numNodos, Edges, nodo);
        rowPtr[nodo + 1] - rowPtr[nodo]
    }

    /**
     * The destinations of `nodo`, each once and in ascending order, as many
     * as its out-degree; empty for an id outside [0, numNodos).
     */
    function GetVecinos(nodo: int): (vecinos: seq<int>)
      reads this
      requires Valid()
      ensures !(0 <= nodo < numNodos) ==> vecinos == []
      ensures 0 <= nodo < numNodos ==> IsSortedListing(vecinos, Row(Edges, nodo))
      ensures |vecinos| == ObtenerGrado(nodo)
    {
      if nodo < 0 || nodo >= numNodos then []
      else
        // The guards on the size of row_ptr and on the slice bounds never fire.
        assert |rowPtr| >= nodo + 2;
        assert 0 <= rowPtr[nodo] <= rowPtr[nodo + 1] <= |valores|;
        valores[rowPtr[nodo]..rowPtr[nodo + 1]]
    }

    /** The out-degrees of all nodes add up to the edge count. */
    lemma GradosSumanAristas()
      requires Valid()
      ensures RowSizeSum(Edges, numNodos) == numAristas
      ensures forall i :: 0 <= i < numNodos ==> ObtenerGrado(i) == |Row(Edges, i)|
    {
      if numNodos > 0 {
        DegreesAddUpToEdges(rowPtr, valores, numNodos, Edges);
      }
    }

    /**
     * Breadth-first search from `nodoInicio`, following at most
     * `profundidadMax` edges.  Returns nothing for an empty graph, a start
     * outside [0, numNodos) or a negative depth; otherwise the start first and
     * then every node within the depth bound exactly once, nearer nodes before
     * farther ones.
     */
    method Bfs(nodoInicio: int, profundidadMax: int) returns (resultado: seq<int>)
      requires Valid()
      ensures numNodos == 0 || nodoInicio < 0 || nodoInicio >= numNodos || profundidadMax < 0 ==> resultado == []
      ensures numNodos > 0 && 0 <= nodoInicio < numNodos && profundidadMax >= 0 ==>
        && |resultado| > 0 && resultado[0] == nodoInicio
        && Distinct(resultado)
        && (forall v :: v in resultado <==> v in Ball(Edges, nodoInicio, profundidadMax))
        && (forall i, j, k: nat :: 0 <= i <= j < |resultado| && resultado[j] in Ball(Edges, nodoInicio, k) ==>
              resultado[i] in Ball(Edges, nodoInicio, k))
        && (profundidadMax == 0 ==> resultado == [nodoInicio])
        && DiscoveryOrder(Edges, resultado)
    {
      if numNodos == 0 {
        return [];
      }
      if nodoInicio < 0 || nodoInicio >= numNodos {
        return [];
      }
      if profundidadMax < 0 {
        return [];
      }
      resultado := Recorrer(valores, rowPtr, numNodos, nodoInicio, profundidadMax, Edges);
    }

    /**
     * The node of highest out-degree, the smallest id among those that tie;
     * -1 when the graph has no nodes.
     */
    method GetNodoMaxGrado() returns (nodoMax: int)
      requires Valid()
      ensures nodoMax == -1 <==> numNodos == 0
      ensures numNodos > 0 ==> 0 <= nodoMax < numNodos
      ensures numNodos > 0 ==> forall i :: 0 <= i < numNodos ==> ObtenerGrado(i) <= ObtenerGrado(nodoMax)
      ensures numNodos > 0 ==> forall i :: 0 <= i < nodoMax ==> ObtenerGrado(i) < ObtenerGrado(nodoMax)
    {
      if numNodos == 0 {
        return -1;
      }
      var maxGrado := -1;
      nodoMax := 0;
      for i := 0 to numNodos
        invariant i == 0 ==> maxGrado == -1 && nodoMax == 0
        invariant i > 0 ==> 0 <= nodoMax < i && maxGrado == ObtenerGrado(nodoMax)
        invariant forall j :: 0 <= j < i ==> ObtenerGrado(j) <= maxGrado
        invariant forall j :: 0 <= j < nodoMax ==> ObtenerGrado(j) < maxGrado
      {
        var grado := ObtenerGrado(i);
        if grado > maxGrado {
          maxGrado := grado;
          nodoMax := i;
        }
      }
    }

    /**
     * Loads an edge list, given as the lines of the file or as None when the
     * file cannot be opened.  On success the graph is exactly the one the
     * lines describe, whatever was loaded before; on failure nothing changes.
     */
    method CargarDatos(archivo: Option<seq<string>>) returns (r: Outcome<LoadError>)
      requires Valid()
      modifies this
      ensures Valid()
      ensures archivo.None? ==> r == Fail(CannotOpen)
      ensures archivo.Some? && EdgeSet(archivo.value) == {} ==> r == Fail(NoValidEdges)
      ensures archivo.Some? && EdgeSet(archivo.value) != {} ==> r == Pass
      ensures r.Fail? ==> unchanged(this)
      ensures r.Pass? ==> archivo.Some? && Edges == EdgeSet(archivo.value)
      ensures r.Pass? ==> numNodos == MaxId(archivo.value) + 1
      ensures r.Pass? ==> numAristas == |EdgeSet(archivo.value)|
    {
      if archivo.None? {
        return Fail(CannotOpen);
      }
      var lines := archivo.value;
      var adjMap, maxNodo, countAristas := LeerAristas(lines);
      if maxNodo < 0 {
        return Fail(NoValidEdges);
      }
      numNodos := maxNodo + 1;
      numAristas := countAristas;
      ConstruirCsr(adjMap, EdgeSet(lines));
      r := Pass;
    }

    /**
     * Builds row_ptr, valores and column_indices from the reading loop's map,
     * once numNodos and numAristas are set.
     */
    method ConstruirCsr(adjMap: map<int, set<int>>, ghost edges: set<(int, int)>)
      requires numNodos >= 1 && numAristas == |edges|
      requires forall o :: Fila(adjMap, o) == Row(edges, o)
      requires EdgesWithin(edges, numNodos)
      requires exists e :: e in edges && (e.0 == numNodos - 1 || e.1 == numNodos - 1)
      modifies this
      ensures Valid()
      ensures Edges == edges
      ensures numNodos == old(numNodos) && numAristas == old(numAristas)
    {
      var n := numNodos;
      var rp := ConstruirRowPtr(adjMap, n, edges);
      var vs, ci := LlenarValores(adjMap, n, rp, edges);
      CsrEdgeCount(rp, vs, n, edges);
      rowPtr, valores, columnIndices := rp, vs, ci;
      Edges := edges;
    }
  }

  /**
   * The reading loop of the loader: the map from each source to the set of its
   * destinations, the largest endpoint seen (-1 if none) and the number of
   * distinct edges, over the accepted lines.
   */
  method LeerAristas(lines: seq<string>) returns (adjMap: map<int, set<int>>, maxNodo: int, countAristas: int)
    ensures maxNodo == MaxId(lines)
    ensures maxNodo == -1 <==> EdgeSet(lines) == {}
    ensures forall e :: e in EdgeSet(lines) ==> 0 <= e.0 <= maxNodo && 0 <= e.1 <= maxNodo
    ensures maxNodo >= 0 ==> exists e :: e in EdgeSet(lines) && (e.0 == maxNodo || e.1 == maxNodo)
    ensures countAristas == |EdgeSet(lines)|
    ensures forall o :: Fila(adjMap, o) == Row(EdgeSet(lines), o)
  {
    ghost var ps := Parse(lines);
    adjMap := map[];
    maxNodo := -1;
    countAristas := 0;
    for k := 0 to |lines|
      invariant Leidas(ps, k, adjMap, maxNodo, countAristas)
    {
      var line := lines[k];
      assert ps[k] == AcceptedEdge(line);
      if |line| == 0 || line[0] == '#' {
        LeidaSinArista(ps, k, adjMap, maxNodo, countAristas);
        continue;
      }
      match ExtractPair(line) {
        case None =>
          LeidaSinArista(ps, k, adjMap, maxNodo, countAristas);
        case Some((origen, destino)) =>
          if origen < 0 || destino < 0 {
            LeidaSinArista(ps, k, adjMap, maxNodo, countAristas);
            continue;
          }
          LeidaConArista(ps, k, adjMap, maxNodo, countAristas, origen, destino);
          maxNodo := Max(maxNodo, Max(origen, destino));
          var fila := Fila(adjMap, origen);
          adjMap := adjMap[origen := fila + {destino}];
          if destino !in fila {
            countAristas := countAristas + 1;
          }
      }
    }
    assert ps[..|lines|] == ps;
    forall o ensures Fila(adjMap, o) == Row(EdgeSet(lines), o) {
      FilaIsRow(adjMap, EdgeSet(lines), o);
    }
    MaxIdBounds(lines);
  }


  /** The state of the reading loop after the first k accepted-or-skipped lines. */
  ghost predicate Leidas(ps: seq<Option<(int, int)>>, k: int, adjMap: map<int, set<int>>, maxNodo: int, countAristas: int)
  {
    && 0 <= k <= |ps|
    && (forall i :: 0 <= i < |ps| && ps[i].Some? ==> ps[i].value.0 >= 0 && ps[i].value.1 >= 0)
    && maxNodo == MaxOf(ps[..k])
    && countAristas == |EdgesOf(ps[..k])|
    && (forall o, d :: d in Fila(adjMap, o) <==> (o, d) in EdgesOf(ps[..k]))
  }

  /** A skipped line leaves the reading state as it was. */
  lemma LeidaSinArista(ps: seq<Option<(int, int)>>, k: int, adjMap: map<int, set<int>>, maxNodo: int, countAristas: int)
    requires Leidas(ps, k, adjMap, maxNodo, countAristas)
    requires k < |ps| && ps[k].None?
    ensures Leidas(ps, k + 1, adjMap, maxNodo, countAristas)
  {
    assert ps[..k + 1][..k] == ps[..k];
  }

  /**
   * An accepted line raises the largest endpoint, records the edge in the map
   * and counts it when its destination was not yet recorded for its source.
   */
  lemma LeidaConArista(ps: seq<Option<(int, int)>>, k: int, adjMap: map<int, set<int>>, maxNodo: int, countAristas: int,
                       origen: int, destino: int)
    requires Leidas(ps, k, adjMap, maxNodo, countAristas)
    requires k < |ps| && ps[k] == Some((origen, destino))
    ensures Leidas(ps, k + 1, adjMap[origen := Fila(adjMap, origen) + {destino}],
                   Max(maxNodo, Max(origen, destino)),
                   if destino in Fila(adjMap, origen) then countAristas else countAristas + 1)
  {
    ParseStep(ps, k);
    ghost var antes := EdgesOf(ps[..k]);
    AddOneCard(antes, (origen, destino));
    FilaAdd(adjMap, origen, destino, antes);
  }

  /** What one more line adds to the edges and the largest endpoint seen so far. */
  lemma ParseStep(ps: seq<Option<(int, int)>>, k: int)
    requires 0 <= k < |ps|
    requires forall i :: 0 <= i < |ps| && ps[i].Some? ==> ps[i].value.0 >= 0 && ps[i].value.1 >= 0
    ensures EdgesOf(ps[..k + 1]) == EdgesOf(ps[..k]) + (if ps[k].Some? then {ps[k].value} else {})
    ensures MaxOf(ps[..k + 1]) ==
      if ps[k].Some? then Max(MaxOf(ps[..k]), Max(ps[k].value.0, ps[k].value.1)) else MaxOf(ps[..k])
  {
    assert ps[..k + 1][..k] == ps[..k];
  }

  /** Recording one more edge in the loader's map records it in the edge set. */
  lemma FilaAdd(adjMap: map<int, set<int>>, origen: int, destino: int, edges: set<(int, int)>)
    requires forall o, d :: d in Fila(adjMap, o) <==> (o, d) in edges
    ensures forall o, d :: d in Fila(adjMap[origen := Fila(adjMap, origen) + {destino}], o) <==>
      (o, d) in edges + {(origen, destino)}
  {
  }

  /** Adding an element grows a set by one exactly when it was not there. */
  lemma AddOneCard<T>(s: set<T>, x: T)
    ensures |s + {x}| == if x in s then |s| else |s| + 1
  {
    if x in s {
      assert s + {x} == s;
    } else {
      assert s * {x} == {};
    }
  }

  /**
   * Appending the listing of row i after the slices of rows 0 .. i - 1 keeps
   * those slices and adds the slice of row i.
   */
  lemma AppendRow(rowPtr: seq<int>, antes: seq<int>, vecinos: seq<int>, i: int, edges: set<(int, int)>)
    requires 0 <= i < |rowPtr| - 1 && rowPtr[0] >= 0
    requires forall a, b :: 0 <= a <= b < |rowPtr| ==> rowPtr[a] <= rowPtr[b]
    requires |antes| == rowPtr[i] && rowPtr[i + 1] == rowPtr[i] + |vecinos|
    requires forall j :: 0 <= j < i ==> IsSortedListing(antes[rowPtr[j]..rowPtr[j + 1]], Row(edges, j))
    requires IsSortedListing(vecinos, Row(edges, i))
    ensures forall j :: 0 <= j < i + 1 ==>
      IsSortedListing((antes + vecinos)[rowPtr[j]..rowPtr[j + 1]], Row(edges, j))
  {
    forall j | 0 <= j < i + 1
      ensures IsSortedListing((antes + vecinos)[rowPtr[j]..rowPtr[j + 1]], Row(edges, j))
    {
      if j < i {
        assert (antes + vecinos)[rowPtr[j]..rowPtr[j + 1]] == antes[rowPtr[j]..rowPtr[j + 1]];
      } else {
        assert (antes + vecinos)[rowPtr[j]..rowPtr[j + 1]] == vecinos;
      }
    }
  }

  /** A prefix sum of the row sizes starts at 0, never decreases and steps by each row's size. */
  lemma PrefixSumSteps(rowPtr: seq<int>, n: nat, edges: set<(int, int)>)
    requires |rowPtr| == n + 1
    requires forall j {:trigger rowPtr[j]} :: 0 <= j <= n ==> rowPtr[j] == RowSizeSum(edges, j)
    ensures rowPtr[0] == 0
    ensures forall a, b :: 0 <= a <= b <= n ==> rowPtr[a] <= rowPtr[b]
    ensures forall j {:trigger Row(edges, j)} :: 0 <= j < n ==> rowPtr[j + 1] == rowPtr[j] + |Row(edges, j)|
  {
    forall a, b | 0 <= a <= b <= n ensures rowPtr[a] <= rowPtr[b] {
      RowSizeSumMonotone(edges, a, b);
    }
  }

  /** Once the map holds exactly the edges, a source's entry is its row. */
  lemma FilaIsRow(adjMap: map<int, set<int>>, edges: set<(int, int)>, i: int)
    requires forall o, d :: d in Fila(adjMap, o) <==> (o, d) in edges
    ensures Fila(adjMap, i) == Row(edges, i)
  {
    forall v ensures v in Fila(adjMap, i) <==> v in Row(edges, i) {
    }
  }

  /** row_ptr as the prefix sum of the out-degrees of nodes 0 .. numNodos - 1. */
  method ConstruirRowPtr(adjMap: map<int, set<int>>, numNodos: nat, ghost edges: set<(int, int)>)
    returns (rowPtr: seq<int>)
    requires forall o :: Fila(adjMap, o) == Row(edges, o)
    ensures |rowPtr| == numNodos + 1
    ensures rowPtr[0] == 0
    ensures forall a, b :: 0 <= a <= b <= numNodos ==> rowPtr[a] <= rowPtr[b]
    ensures forall j {:trigger Row(edges, j)} :: 0 <= j < numNodos ==> rowPtr[j + 1] == rowPtr[j] + |Row(edges, j)|
  {
    rowPtr := seq(numNodos + 1, _ => 0);
    for i := 0 to numNodos
      invariant |rowPtr| == numNodos + 1
      invariant forall j {:trigger rowPtr[j]} :: 0 <= j <= i ==> rowPtr[j] == RowSizeSum(edges, j)
    {
      ghost var antes := rowPtr;
      rowPtr := rowPtr[i + 1 := rowPtr[i] + |Fila(adjMap, i)|];
      assert rowPtr[i + 1] == RowSizeSum(edges, i + 1);
      assert forall j :: 0 <= j <= i ==> rowPtr[j] == antes[j];
    }
    PrefixSumSteps(rowPtr, numNodos, edges);
  }

  /**
   * valores and column_indices: each source's destinations in ascending
   * order, one source after the other, so that the offsets delimit them.
   */
  method LlenarValores(adjMap: map<int, set<int>>, numNodos: nat, rowPtr: seq<int>, ghost edges: set<(int, int)>)
    returns (valores: seq<int>, columnIndices: seq<int>)
    requires forall o :: Fila(adjMap, o) == Row(edges, o)
    requires EdgesWithin(edges, numNodos)
    requires |rowPtr| == numNodos + 1
    requires rowPtr[0] == 0
    requires forall a, b :: 0 <= a <= b <= numNodos ==> rowPtr[a] <= rowPtr[b]
    requires forall j {:trigger Row(edges, j)} :: 0 <= j < numNodos ==> rowPtr[j + 1] == rowPtr[j] + |Row(edges, j)|
    ensures IsCsr(rowPtr, valores, numNodos, edges)
    ensures columnIndices == valores
  {
    valores := [];
    columnIndices := [];
    for i := 0 to numNodos
      invariant |valores| == rowPtr[i]
      invariant columnIndices == valores
      invariant forall j {:trigger Row(edges, j)} :: 0 <= j < i ==>
        IsSortedListing(valores[rowPtr[j]..rowPtr[j + 1]], Row(edges, j))
    {
      var vecinos := SortedElements(Fila(adjMap, i), 0, numNodos);
      SortedElementsListing(Fila(adjMap, i), numNodos);
      SortedListingCard(vecinos, Row(edges, i));
      ghost var antes := valores;
      valores, columnIndices := AgregarFila(valores, columnIndices, vecinos);
      AppendRow(rowPtr, antes, vecinos, i, edges);
    }
  }

  /** Appends one source's destinations to valores and column_indices, entry by entry. */
  method AgregarFila(valores: seq<int>, columnIndices: seq<int>, vecinos: seq<int>)
    returns (valores': seq<int>, columnIndices': seq<int>)
    requires columnIndices == valores
    ensures valores' == valores + vecinos
    ensures columnIndices' == valores'
  {
    valores', columnIndices' := valores, columnIndices;
    for k := 0 to |vecinos|
      invariant valores' == valores + vecinos[..k]
      invariant columnIndices' == valores'
    {
      assert vecinos[..k + 1] == vecinos[..k] + [vecinos[k]];
      valores' := valores' + [vecinos[k]];
      columnIndices' := columnIndices' + [vecinos[k]];
    }
    assert vecinos[..|vecinos|] == vecinos;
  }

  /**
   * The traversal proper, over the offsets and destinations of the graph:
   * a FIFO queue, a distance per node (-1 while unreached), and the
   * neighbours of a dequeued node scanned only while it is shallower than
   * the depth bound.
   */
  method Recorrer(valores: seq<int>, rowPtr: seq<int>, n: int, start: int, K: int, ghost edges: set<(int, int)>)
    returns (resultado: seq<int>)
    requires IsCsr(rowPtr, valores, n, edges)
    requires 0 <= start < n && 0 <= K
    ensures |resultado| > 0 && resultado[0] == start
    ensures Distinct(resultado)
    ensures forall v :: v in resultado <==> v in Ball(edges, start, K)
    ensures forall i, j, k: nat :: 0 <= i <= j < |resultado| && resultado[j] in Ball(edges, start, k) ==>
              resultado[i] in Ball(edges, start, k)
    ensures K == 0 ==> resultado == [start]
    ensures DiscoveryOrder(edges, resultado)
  {
    resultado := [start];
    var distancia := seq(n, _ => -1);
    distancia := distancia[start := 0];
    var cola := [start];
    ghost var h := 0;  // how many nodes have left the queue: cola is resultado[h..]
    ghost var P := [0];  // P[j]: the position in resultado of the node that discovered resultado[j]
    QueuedStart(edges, n, start, K, distancia);
    DiscStart(edges, start);
    while cola != []
      invariant Queued(edges, n, start, K, resultado, distancia, h)
      invariant Order(edges, resultado, P, h)
      invariant cola == resultado[h..]
      decreases n - h
    {
      resultado, distancia, cola, P := Desencolar(valores, rowPtr, resultado, distancia, cola, edges, n, start, K, h, P);
      h := h + 1;
    }
    BfsOutcome(edges, n, start, K, resultado, distancia);
    DiscOutcome(edges, resultado, P);
    if K == 0 {
      ZeroDepth(edges, start, resultado);
    }
  }

  /**
   * One turn of the outer loop: the head of the queue is taken off and, when
   * it is shallower than the depth bound, its neighbours are visited.
   */
  method Desencolar(valores: seq<int>, rowPtr: seq<int>, resultado: seq<int>, distancia: seq<int>, cola: seq<int>,
                    ghost edges: set<(int, int)>, n: int, ghost start: int, K: nat, ghost h: int, ghost P: seq<int>)
    returns (resultado': seq<int>, distancia': seq<int>, cola': seq<int>, ghost P': seq<int>)
    requires IsCsr(rowPtr, valores, n, edges)
    requires Queued(edges, n, start, K, resultado, distancia, h)
    requires Order(edges, resultado, P, h)
    requires cola == resultado[h..] && cola != []
    ensures Queued(edges, n, start, K, resultado', distancia', h + 1)
    ensures Order(edges, resultado', P', h + 1)
    ensures cola' == resultado'[h + 1..]
  {
    QueuePop(resultado, h);
    var actual := cola[0];
    cola' := cola[1..];
    if distancia[actual] >= K {
      QueuedDeep(edges, n, start, K, resultado, distancia, h);
      DiscDeep(edges, resultado, P, h);
      resultado', distancia', P' := resultado, distancia, P;
      return;
    }
    // The range check on the node taken from the queue never fires.
    assert 0 <= actual < n;
    var inicioVecinos := rowPtr[actual];
    var finVecinos := rowPtr[actual + 1];
    // Nor does the check on its slice bounds.
    assert 0 <= inicioVecinos <= finVecinos <= |valores|;
    resultado', distancia', cola', P' := VisitarVecinos(valores, inicioVecinos, finVecinos, actual,
                                                        resultado, distancia, cola', edges, n, start, K, h, P);
  }

  /**
   * The inner loop of the breadth-first search: scans the neighbours of
   * `actual`, stored in valores[inicio..fin], labels each one not yet
   * reached one deeper than `actual` and appends it to the queue and to the
   * result.  Afterwards `actual` is expanded and the queue has moved on.
   */
  method VisitarVecinos(valores: seq<int>, inicio: int, fin: int, actual: int,
                        resultado: seq<int>, distancia: seq<int>, cola: seq<int>,
                        ghost edges: set<(int, int)>, ghost n: int, ghost start: int, ghost K: nat, ghost h: int,
                        ghost P: seq<int>)
    returns (resultado': seq<int>, distancia': seq<int>, cola': seq<int>, ghost P': seq<int>)
    requires EdgesWithin(edges, n)
    requires Queued(edges, n, start, K, resultado, distancia, h)
    requires Order(edges, resultado, P, h)
    requires h < |resultado| && resultado[h] == actual && distancia[actual] < K
    requires cola == resultado[h + 1..]
    requires 0 <= inicio <= fin <= |valores|
    requires IsSortedListing(valores[inicio..fin], Row(edges, actual))
    ensures Queued(edges, n, start, K, resultado', distancia', h + 1)
    ensures Order(edges, resultado', P', h + 1)
    ensures cola' == resultado'[h + 1..]
  {
    ghost var fila := valores[inicio..fin];
    ScanStart(edges, n, start, K, resultado, distancia, h, fila);
    DiscScanStart(edges, resultado, P, h, fila);
    resultado', distancia', cola', P' := EscanearVecinos(valores, inicio, fin, actual,
                                                         resultado, distancia, cola, edges, n, start, K, h, P);
    ScanDone(edges, n, start, K, resultado', distancia', h + 1, fila);
    DiscDone(edges, resultado', P', h + 1, fila);
  }

  /** The loop over valores[inicio..fin] itself, one neighbour per turn. */
  method EscanearVecinos(valores: seq<int>, inicio: int, fin: int, actual: int,
                        resultado: seq<int>, distancia: seq<int>, cola: seq<int>,
                        ghost edges: set<(int, int)>, ghost n: int, ghost start: int, ghost K: nat, ghost h: int,
                        ghost P: seq<int>)
    returns (resultado': seq<int>, distancia': seq<int>, cola': seq<int>, ghost P': seq<int>)
    requires 0 <= inicio <= fin <= |valores|
    requires Scanning(edges, n, start, K, resultado, distancia, h + 1, valores[inicio..fin], 0)
    requires OrderScan(edges, resultado, P, h + 1, valores[inicio..fin], 0)
    requires cola == resultado[h + 1..] && resultado[h] == actual
    ensures Scanning(edges, n, start, K, resultado', distancia', h + 1, valores[inicio..fin], fin - inicio)
    ensures OrderScan(edges, resultado', P', h + 1, valores[inicio..fin], fin - inicio)
    ensures cola' == resultado'[h + 1..]
  {
    ghost var fila := valores[inicio..fin];
    resultado', distancia', cola', P' := resultado, distancia, cola, P;
    for k := 0 to fin - inicio
      invariant Scanning(edges, n, start, K, resultado', distancia', h + 1, fila, k)
      invariant OrderScan(edges, resultado', P', h + 1, fila, k)
      invariant cola' == resultado'[h + 1..] && resultado'[h] == actual
    {
      var vecino := valores[inicio + k];
      assert vecino == fila[k];
      resultado', distancia', cola', P' := VisitarVecino(vecino, actual, resultado', distancia', cola',
                                                         edges, n, start, K, h, P', fila, k);
    }
  }

  /**
   * One step of the inner loop: the neighbour `vecino`, entry k of the scan,
   * is labelled and queued if it has not been reached yet.
   */
  method VisitarVecino(vecino: int, actual: int, resultado: seq<int>, distancia: seq<int>, cola: seq<int>,
                       ghost edges: set<(int, int)>, ghost n: int, ghost start: int, ghost K: nat, ghost h: int,
                       ghost P: seq<int>, ghost fila: seq<int>, ghost k: int)
    returns (resultado': seq<int>, distancia': seq<int>, cola': seq<int>, ghost P': seq<int>)
    requires Scanning(edges, n, start, K, resultado, distancia, h + 1, fila, k)
    requires OrderScan(edges, resultado, P, h + 1, fila, k)
    requires cola == resultado[h + 1..] && resultado[h] == actual
    requires 0 <= k < |fila| && vecino == fila[k]
    ensures Scanning(edges, n, start, K, resultado', distancia', h + 1, fila, k + 1)
    ensures OrderScan(edges, resultado', P', h + 1, fila, k + 1)
    ensures cola' == resultado'[h + 1..] && resultado'[h] == actual
  {
    // The range check on the neighbour never fires.
    assert 0 <= vecino < n;
    if distancia[vecino] == -1 {
      ScanNew(edges, n, start, K, resultado, distancia, h + 1, fila, k, vecino, actual);
      DiscNew(edges, n, start, K, resultado, distancia, h + 1, fila, k, vecino, P, h);
      QueuePush(resultado, h + 1, vecino);
      distancia' := distancia[vecino := distancia[actual] + 1];
      cola' := cola + [vecino];
      resultado' := resultado + [vecino];
      P' := P + [h];
    } else {
      ScanSeen(edges, n, start, K, resultado, distancia, h + 1, fila, k);
      DiscSeen(edges, resultado, P, h + 1, fila, k);
      resultado', distancia', cola', P' := resultado, distancia, cola, P;
    }
  }
}
