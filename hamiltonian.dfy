/**
 * lab6's directed graph and its sequential Hamiltonian-cycle search
 * (lab6/lab6.cpp).  The graph keeps both an adjacency matrix and adjacency
 * lists, updated together by `addEdge`.  The search extends a path of
 * `verticesCount` slots, where -1 marks an empty slot, by depth-first
 * backtracking over the adjacency list of the last vertex.  `rand()` in the
 * generator becomes a sequence of draws.
 */
module Hamiltonian {
  /** Every entry of p is a vertex 0 .. n-1. */
  ghost predicate InRange(p: seq<int>, n: int)
  {
    forall i :: 0 <= i < |p| ==> 0 <= p[i] < n
  }

  /** No vertex 0 .. n-1 occurs twice in p: the first test of `verifySolution`. */
  ghost predicate Simple(p: seq<int>, n: int)
  {
    forall v :: 0 <= v < n ==> multiset(p)[v] <= 1
  }

  /** The ring neighbour of u among n vertices. */
  function Successor(u: int, n: int): (v: int)
    requires 0 <= u < n
    ensures 0 <= v < n && (v == 0 <==> u == n - 1)
  {
    (u + 1) % n
  }

  /** Whether `vertex` occurs in p at or before the first -1 (the scan of `isSafe`). */
  function SeenBeforeGap(p: seq<int>, vertex: int): bool
  {
    if p == [] then false
    else if p[0] == vertex then true
    else if p[0] == -1 then false
    else SeenBeforeGap(p[1..], vertex)
  }

  /** On a path filled up to `pos` and empty (-1) after it, `isSafe`'s scan is membership in the filled part. */
  lemma {:induction false} SeenIffInPrefix(p: seq<int>, pos: int, vertex: int)
    requires 0 <= pos <= |p| && vertex >= 0
    requires forall i :: 0 <= i < pos ==> p[i] >= 0
    requires forall i :: pos <= i < |p| ==> p[i] == -1
    ensures SeenBeforeGap(p, vertex) <==> vertex in p[..pos]
  {
    if pos > 0 {
      SeenIffInPrefix(p[1..], pos - 1, vertex);
      assert p[..pos] == [p[0]] + p[1..][..pos - 1];
    }
  }

  /** In a simple path two different slots hold different vertices. */
  lemma SimpleNoRepeat(p: seq<int>, n: int, i: int, j: int)
    requires Simple(p, n) && 0 <= i < j < |p| && 0 <= p[i] < n
    ensures p[i] != p[j]
  {
    var x := p[i];
    assert p == p[..j] + p[j..];
    assert multiset(p)[x] == multiset(p[..j])[x] + multiset(p[j..])[x];
    assert p[..j][i] == x;
    assert multiset(p[..j])[x] >= 1;
    assert multiset(p)[x] <= 1;
    assert p[j..][0] == p[j];
  }

  /** A path without repeated entries is simple. */
  lemma {:induction false} DistinctIsSimple(p: seq<int>, n: int)
    requires forall i, j :: 0 <= i < j < |p| ==> p[i] != p[j]
    ensures Simple(p, n)
    decreases |p|
  {
    if p != [] {
      var front := p[..|p| - 1];
      DistinctIsSimple(front, n);
      assert p == front + [p[|p| - 1]];
      forall v | 0 <= v < n
        ensures multiset(p)[v] <= 1
      {
        if v == p[|p| - 1] {
          assert v !in front;
        }
      }
    }
  }

  class Graph {
    const verticesCount: int
    const adjacencyMatrix: array2<bool>
    const adjacencyList: array<seq<int>>

    /** The matrix and the lists describe the same edges, over vertices 0 .. verticesCount-1. */
    ghost predicate Valid()
      reads adjacencyMatrix, adjacencyList
    {
      verticesCount >= 0 &&
      adjacencyMatrix.Length0 == verticesCount && adjacencyMatrix.Length1 == verticesCount &&
      adjacencyList.Length == verticesCount &&
      (forall u, v :: 0 <= u < verticesCount && 0 <= v < verticesCount ==> (adjacencyMatrix[u, v] <==> v in adjacencyList[u])) &&
      (forall u, k :: 0 <= u < verticesCount && 0 <= k < |adjacencyList[u]| ==> 0 <= adjacencyList[u][k] < verticesCount)
    }

    /** `Graph(v)`: v vertices and no edges. */
    constructor (v: nat)
      ensures Valid() && verticesCount == v && fresh(adjacencyMatrix) && fresh(adjacencyList)
      ensures forall a, b :: 0 <= a < v && 0 <= b < v ==> !adjacencyMatrix[a, b]
      ensures forall a :: 0 <= a < v ==> adjacencyList[a] == []
    {
      verticesCount := v;
      adjacencyMatrix := new bool[v, v]((_, _) => false);
      adjacencyList := new seq<int>[v](_ => []);
    }

    /** `addEdge(u, v)`: sets the matrix cell and appends v to u's list, even if the edge is already there. */
    method AddEdge(u: int, v: int)
      requires Valid() && 0 <= u < verticesCount && 0 <= v < verticesCount
      modifies adjacencyMatrix, adjacencyList
      ensures Valid()
      ensures forall a, b :: 0 <= a < verticesCount && 0 <= b < verticesCount ==>
        adjacencyMatrix[a, b] == (old(adjacencyMatrix[a, b]) || (a == u && b == v))
      ensures forall a :: 0 <= a < verticesCount ==>
        adjacencyList[a] == if a == u then old(adjacencyList[a]) + [v] else old(adjacencyList[a])
    {
      adjacencyMatrix[u, v] := true;
      adjacencyList[u] := adjacencyList[u] + [v];
    }

    /** `hasEdge(u, v)`: the matrix cell, which agrees with the adjacency list. */
    function HasEdge(u: int, v: int): (edge: bool)
      requires Valid() && 0 <= u < verticesCount && 0 <= v < verticesCount
      reads adjacencyMatrix, adjacencyList
      ensures edge <==> v in adjacencyList[u]
    {
      adjacencyMatrix[u, v]
    }

    /** Every consecutive pair of p is an edge: the second test of `verifySolution`. */
    ghost predicate Chained(p: seq<int>)
      requires Valid() && InRange(p, verticesCount)
      reads adjacencyMatrix, adjacencyList
    {
      forall i :: 0 <= i < |p| - 1 ==> adjacencyMatrix[p[i], p[i + 1]]
    }

    /** A Hamiltonian cycle back to `start`: every vertex once, consecutive edges, and the closing edge. */
    ghost predicate Cycle(c: seq<int>, start: int)
      requires Valid()
      reads adjacencyMatrix, adjacencyList
    {
      |c| == verticesCount >= 1 && 0 <= start < verticesCount &&
      InRange(c, verticesCount) && Simple(c, verticesCount) && Chained(c) &&
      adjacencyMatrix[c[verticesCount - 1], start]
    }

    /**
     * `isSafe(vertex, path, pos)`: false as soon as the scan meets `vertex`
     * before the first -1; otherwise whether pos < verticesCount.
     */
    method IsSafe(vertex: int, path: array<int>, pos: int) returns (safe: bool)
      requires path.Length == verticesCount
      ensures safe <==> !SeenBeforeGap(path[..], vertex) && pos < verticesCount
    {
      var i := 0;
      while i < verticesCount
        invariant 0 <= i <= verticesCount
        invariant SeenBeforeGap(path[..], vertex) == SeenBeforeGap(path[i..], vertex)
      {
        assert path[i..][1..] == path[i + 1..];
        if path[i] == vertex {
          return false;
        }
        if path[i] == -1 {
          break;
        }
        i := i + 1;
      }
      return pos < verticesCount;
    }

    /**
     * `verifySolution(path)`: true iff no vertex occurs twice in the path and
     * every consecutive pair is an edge.  The closing edge is not checked.
     */
    method VerifySolution(path: array<int>) returns (ok: bool)
      requires Valid() && InRange(path[..], verticesCount)
      ensures ok <==> Simple(path[..], verticesCount) && Chained(path[..])
    {
      var currentVertex := 0;
      while currentVertex < verticesCount
        invariant 0 <= currentVertex <= verticesCount
        invariant forall v :: 0 <= v < currentVertex ==> multiset(path[..])[v] <= 1
      {
        var once := AtMostOnce(path, currentVertex);
        if !once {
          return false;
        }
        currentVertex := currentVertex + 1;
      }
      var len := path.Length;
      var i := 0;
      while i < len - 1
        invariant 0 <= i && (i == 0 || i <= len - 1)
        invariant forall j :: 0 <= j < i ==> adjacencyMatrix[path[j], path[j + 1]]
      {
        if !adjacencyMatrix[path[i], path[i + 1]] {
          return false;
        }
        i := i + 1;
      }
      return true;
    }

    /** `verifySolution`'s count of one vertex, which gives up at a second occurrence. */
    static method AtMostOnce(path: array<int>, vertex: int) returns (once: bool)
      ensures once <==> multiset(path[..])[vertex] <= 1
    {
      var count := 0;
      var k := 0;
      while k < path.Length
        invariant 0 <= k <= path.Length
        invariant count == multiset(path[..k])[vertex] && count <= 1
      {
        assert path[..k + 1] == path[..k] + [path[k]];
        assert multiset(path[..k + 1]) == multiset(path[..k]) + multiset{path[k]};
        if path[k] == vertex {
          count := count + 1;
          if count > 1 {
            assert path[..] == path[..k + 1] + path[k + 1..];
            assert multiset(path[..]) == multiset(path[..k + 1]) + multiset(path[k + 1..]);
            return false;
          }
        }
        k := k + 1;
      }
      assert path[..k] == path[..];
      return true;
    }

    /** No Hamiltonian cycle back to `start` begins with `prefix`. */
    ghost predicate NoExtension(prefix: seq<int>, start: int)
      requires Valid()
      reads adjacencyMatrix, adjacencyList
    {
      forall c :: Cycle(c, start) && |prefix| <= |c| ==> c[..|prefix|] != prefix
    }

    /** A prefix that already visits w has no Hamiltonian continuation through w. */
    lemma RepeatBlocks(prefix: seq<int>, w: int, start: int)
      requires Valid() && w in prefix
      ensures NoExtension(prefix + [w], start)
    {
      forall c | Cycle(c, start) && |prefix| + 1 <= |c| && c[..|prefix| + 1] == prefix + [w]
        ensures false
      {
        var at :| 0 <= at < |prefix| && prefix[at] == w;
        assert c[at] == w && c[|prefix|] == w;
        SimpleNoRepeat(c, verticesCount, at, |prefix|);
      }
    }

    /** If no neighbour of the last vertex continues a prefix, the prefix has no continuation either. */
    lemma Exhausted(prefix: seq<int>, start: int)
      requires Valid() && 1 <= |prefix| < verticesCount && 0 <= prefix[|prefix| - 1] < verticesCount
      requires forall w :: w in adjacencyList[prefix[|prefix| - 1]] ==> NoExtension(prefix + [w], start)
      ensures NoExtension(prefix, start)
    {
      forall c | Cycle(c, start) && |prefix| <= |c|
        ensures c[..|prefix|] != prefix
      {
        Continues(prefix, c, start);
      }
    }

    /** A Hamiltonian cycle extending a prefix continues it with a neighbour of its last vertex. */
    lemma Continues(prefix: seq<int>, c: seq<int>, start: int)
      requires Valid() && Cycle(c, start) && 1 <= |prefix| < |c|
      ensures c[..|prefix|] == prefix ==>
        c[|prefix|] in adjacencyList[prefix[|prefix| - 1]] && c[..|prefix| + 1] == prefix + [c[|prefix|]]
    {
      assert c[..|prefix| + 1] == c[..|prefix|] + [c[|prefix|]];
      assert adjacencyMatrix[c[|prefix| - 1], c[|prefix|]];
    }

    /** A complete path that fails `verifySolution` or lacks the closing edge is not a Hamiltonian cycle. */
    lemma CompleteRejected(p: seq<int>, start: int)
      requires Valid() && |p| == verticesCount && InRange(p, verticesCount)
      requires !(Simple(p, verticesCount) && Chained(p)) || !(verticesCount >= 1 && 0 <= start < verticesCount && adjacencyMatrix[p[verticesCount - 1], start])
      ensures NoExtension(p, start)
    {
      forall c | Cycle(c, start) && |p| <= |c|
        ensures c[..|p|] != p
      {
        assert c[..|p|] == c;
      }
    }

    /** The `pos == verticesCount` case of the search: the closing edge, then `verifySolution`. */
    method CloseCycle(startVertex: int, path: array<int>) returns (found: bool)
      requires Valid() && path.Length == verticesCount >= 1 && 0 <= startVertex < verticesCount
      requires InRange(path[..], verticesCount)
      ensures found <==> Cycle(path[..], startVertex)
      ensures !found ==> NoExtension(path[..], startVertex)
    {
      var lastVertex := path[verticesCount - 1];
      if adjacencyMatrix[lastVertex, startVertex] {
        var ok := VerifySolution(path);
        if !ok {
          CompleteRejected(path[..], startVertex);
          return false;
        }
        return true;
      }
      CompleteRejected(path[..], startVertex);
      return false;
    }

    /**
     * One pass of the search loop: when `isSafe` accepts the neighbour it is
     * placed at `pos` and the search recurses; on failure the slot is reset to
     * -1.  A rejected or failed neighbour starts no Hamiltonian continuation.
     */
    method TryNeighbor(startVertex: int, path: array<int>, pos: int, neighbor: int) returns (found: bool)
      requires Valid() && path.Length == verticesCount && 1 <= pos < verticesCount && 0 <= startVertex < verticesCount
      requires forall i :: 0 <= i < pos ==> 0 <= path[i] < verticesCount
      requires forall i :: pos <= i < verticesCount ==> path[i] == -1
      requires 0 <= neighbor < verticesCount
      modifies path
      ensures found ==> path[..pos] == old(path[..pos]) && Cycle(path[..], startVertex)
      ensures !found ==> path[..] == old(path[..]) && NoExtension(old(path[..pos]) + [neighbor], startVertex)
      decreases verticesCount - pos, 0
    {
      ghost var prefix := path[..pos];
      var safe := IsSafe(neighbor, path, pos);
      if safe {
        path[pos] := neighbor;
        assert path[..pos + 1] == prefix + [neighbor];
        found := HamiltonianUtilST(startVertex, path, pos + 1);
        if found {
          assert path[..pos] == path[..pos + 1][..pos];
          return;
        }
        path[pos] := -1;
        assert path[..] == old(path[..]);
      } else {
        SeenIffInPrefix(path[..], pos, neighbor);
        RepeatBlocks(prefix, neighbor, startVertex);
        found := false;
      }
    }

    /**
     * `hamiltonianUtilST(startVertex, path, pos, found)`: slots 0 .. pos-1
     * hold the path so far and the rest are -1.  The shared `found` flag is
     * false on every entry of the sequential search (each caller returns as
     * soon as it is set), so it is the result here.  On success the path
     * holds a Hamiltonian cycle extending the entry prefix; on failure the
     * path is as it was on entry and no Hamiltonian cycle extends the prefix.
     */
    method HamiltonianUtilST(startVertex: int, path: array<int>, pos: int) returns (found: bool)
      requires Valid() && path.Length == verticesCount && 1 <= pos <= verticesCount && 0 <= startVertex < verticesCount
      requires forall i :: 0 <= i < pos ==> 0 <= path[i] < verticesCount
      requires forall i :: pos <= i < verticesCount ==> path[i] == -1
      modifies path
      ensures found ==> path[..pos] == old(path[..pos]) && Cycle(path[..], startVertex)
      ensures !found ==> path[..] == old(path[..]) && NoExtension(path[..pos], startVertex)
      decreases verticesCount - pos, 1
    {
      if pos == verticesCount {
        found := CloseCycle(startVertex, path);
        return;
      }
      ghost var prefix := path[..pos];
      var lastVertex := path[pos - 1];
      var neighbors := adjacencyList[lastVertex];
      var k := 0;
      while k < |neighbors|
        invariant 0 <= k <= |neighbors|
        invariant path[..] == old(path[..])
        invariant forall w :: w in neighbors[..k] ==> NoExtension(prefix + [w], startVertex)
      {
        found := TryNeighbor(startVertex, path, pos, neighbors[k]);
        if found {
          return;
        }
        assert neighbors[..k + 1] == neighbors[..k] + [neighbors[k]];
        k := k + 1;
      }
      assert neighbors[..k] == neighbors;
      Exhausted(prefix, startVertex);
      found := false;
    }

    /**
     * `findHamiltonianCycleST(startVertex)`: a path of -1s with the start in
     * slot 0, searched from position 1.  "No Hamiltonian Cycle found" is
     * reported (found is false) only when no Hamiltonian cycle starts there.
     */
    method FindHamiltonianCycleST(startVertex: int) returns (found: bool, cycle: seq<int>)
      requires Valid() && 0 <= startVertex < verticesCount
      ensures found ==> Cycle(cycle, startVertex) && cycle[0] == startVertex
      ensures !found ==> forall c :: Cycle(c, startVertex) ==> c[0] != startVertex
    {
      var path := new int[verticesCount](_ => -1);
      path[0] := startVertex;
      found := HamiltonianUtilST(startVertex, path, 1);
      cycle := path[..];
      if found {
        assert cycle[..1] == [startVertex];
      } else {
        forall c | Cycle(c, startVertex)
          ensures c[0] != startVertex
        {
          assert c[..1] != [startVertex];
        }
      }
    }

    /**
     * `generateHamiltonianCycle(vertexCount, unproductiveNeighbors,
     * neighborInterval)`: for each vertex i, when unproductiveNeighbors + 2 <
     * vertexCount and i is a multiple of the interval, draw targets until that
     * many new edges are added (a draw equal to i+1 or to an existing edge is
     * retried), then always add the ring edge i -> (i+1) % vertexCount.  Draws
     * come from `draws`; if they run out, the remaining extra edges are not added.
     */
    static method GenerateHamiltonianCycle(vertexCount: nat, unproductiveNeighbors: int, neighborInterval: int, draws: seq<nat>)
      returns (graph: Graph)
      requires unproductiveNeighbors + 2 < vertexCount ==> neighborInterval != 0
      ensures fresh(graph.adjacencyMatrix) && fresh(graph.adjacencyList)
      ensures graph.Valid() && graph.verticesCount == vertexCount
      ensures forall i :: 0 <= i < vertexCount ==> graph.adjacencyMatrix[i, Successor(i, vertexCount)]
      ensures unproductiveNeighbors <= 0 ==> forall u, v :: 0 <= u < vertexCount && 0 <= v < vertexCount ==>
        (graph.adjacencyMatrix[u, v] <==> v == Successor(u, vertexCount))
    {
      graph := new Graph(vertexCount);
      var next := 0;
      var i := 0;
      while i < vertexCount
        invariant 0 <= i <= vertexCount && 0 <= next <= |draws|
        invariant graph.Valid() && graph.verticesCount == vertexCount
        invariant fresh(graph.adjacencyMatrix) && fresh(graph.adjacencyList)
        invariant forall u :: 0 <= u < i ==> graph.adjacencyMatrix[u, Successor(u, vertexCount)]
        invariant forall u, v :: i <= u < vertexCount && 0 <= v < vertexCount ==> !graph.adjacencyMatrix[u, v]
        invariant unproductiveNeighbors <= 0 ==> forall u, v :: 0 <= u < i && 0 <= v < vertexCount ==>
          (graph.adjacencyMatrix[u, v] <==> v == Successor(u, vertexCount))
      {
        if unproductiveNeighbors + 2 < vertexCount && i % neighborInterval == 0 {
          var j := 0;
          while j < unproductiveNeighbors && next < |draws|
            invariant 0 <= next <= |draws|
            invariant graph.Valid() && graph.verticesCount == vertexCount
            invariant forall u :: 0 <= u < i ==> graph.adjacencyMatrix[u, Successor(u, vertexCount)]
            invariant forall u, v :: i < u < vertexCount && 0 <= v < vertexCount ==> !graph.adjacencyMatrix[u, v]
            invariant unproductiveNeighbors <= 0 ==> forall u, v :: 0 <= u < vertexCount && 0 <= v < vertexCount ==>
              (graph.adjacencyMatrix[u, v] <==> (u < i && v == Successor(u, vertexCount)))
            decreases |draws| - next
          {
            var randVert := draws[next] % vertexCount;
            next := next + 1;
            if i + 1 != randVert && !graph.HasEdge(i, randVert) {
              graph.AddEdge(i, randVert % vertexCount);
              j := j + 1;
            }
          }
        }
        graph.AddEdge(i, Successor(i, vertexCount));
        i := i + 1;
      }
    }
  }

  /** The ring 0 -> 1 -> ... -> n-1 -> 0 holds the Hamiltonian cycle 0, 1, ..., n-1 from vertex 0. */
  lemma RingHasCycle(graph: Graph)
    requires graph.Valid() && graph.verticesCount >= 1
    requires forall u, v :: 0 <= u < graph.verticesCount && 0 <= v < graph.verticesCount ==>
      (graph.adjacencyMatrix[u, v] <==> v == Successor(u, graph.verticesCount))
    ensures graph.Cycle(seq(graph.verticesCount, k => k), 0)
  {
    var n := graph.verticesCount;
    var c := seq(n, k => k);
    DistinctIsSimple(c, n);
    RingEdges(graph, c);
  }

  /** Consecutive entries of 0, 1, ..., n-1, and its last and first, are ring edges. */
  lemma RingEdges(graph: Graph, c: seq<int>)
    requires graph.Valid() && graph.verticesCount >= 1
    requires forall u, v :: 0 <= u < graph.verticesCount && 0 <= v < graph.verticesCount ==>
      (graph.adjacencyMatrix[u, v] <==> v == Successor(u, graph.verticesCount))
    requires c == seq(graph.verticesCount, k => k)
    ensures InRange(c, graph.verticesCount) && graph.Chained(c) && graph.adjacencyMatrix[c[|c| - 1], 0]
  {
    var n := graph.verticesCount;
    forall i | 0 <= i < n - 1
      ensures graph.adjacencyMatrix[c[i], c[i + 1]]
    {
      assert Successor(i, n) == i + 1;
    }
    assert Successor(n - 1, n) == 0;
  }

  /** `main`'s run: the search from vertex 0 of a generated ring (no extra edges) finds a cycle. */
  method SearchRing(vertexCount: nat) returns (found: bool, cycle: seq<int>)
    requires vertexCount >= 1
    ensures found && |cycle| == vertexCount && cycle[0] == 0
  {
    var graph := Graph.GenerateHamiltonianCycle(vertexCount, 0, 1, []);
    RingHasCycle(graph);
    assert seq(vertexCount, k => k)[0] == 0;
    found, cycle := graph.FindHamiltonianCycleST(0);
  }
}
