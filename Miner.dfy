/**
 * Graph helpers of the frequent-subgraph miner.
 *
 * The input graph is given by adjacency lists: vertex v is 0 <= v < |graph|
 * and graph[v] lists the destinations of its edges in edge order (several
 * edges to one destination are possible).  An embedding is the sequence of
 * graph vertices a pattern instance is mapped to.  The `do_all` loops of the
 * source are read as ordinary sequential loops; where the runtime fixes no
 * order (the seeding loop) the contracts promise none.
 */
module Miner {

  type AdjLists = seq<seq<nat>>
  type Embedding = seq<nat>

  /** An undirected graph: every edge u -> v has a reverse edge v -> u. */
  ghost predicate Symmetric(g: AdjLists)
  {
    forall u, v :: 0 <= u < |g| && v in g[u] ==> v < |g| && u in g[v]
  }

  /**
   * What `is_connected(from, to)` decides: it scans the adjacency list of
   * the endpoint of smaller recorded degree (that of `to` on a tie) for the
   * other endpoint.
   */
  function ScanConnected(g: AdjLists, degrees: seq<nat>, from: nat, to: nat): bool
    requires from < |g| && to < |g| && from < |degrees| && to < |degrees|
  {
    if degrees[from] < degrees[to] then to in g[from] else from in g[to]
  }

  /**
   * On an undirected graph the choice of list is only an optimisation:
   * the scan answers "is there an edge from -> to", whatever the degrees.
   */
  lemma ScanConnectedIsAdjacency(g: AdjLists, degrees: seq<nat>, from: nat, to: nat)
    requires Symmetric(g)
    requires from < |g| && to < |g| && from < |degrees| && to < |degrees|
    ensures ScanConnected(g, degrees, from, to) <==> to in g[from]
    ensures ScanConnected(g, degrees, from, to) <==> from in g[to]
  {
  }

  // ---------------------------------------------------------------------
  // Lower-triangle flag layout

  /** Tri(n) = 0 + 1 + ... + (n - 1): the number of pairs j < i < n. */
  function Tri(n: nat): nat
  {
    if n == 0 then 0 else Tri(n - 1) + (n - 1)
  }

  /** The position of the flag for the pair (i, j), j < i. */
  function TriIndex(i: nat, j: nat): nat
  {
    Tri(i) + j
  }

  lemma {:induction false} TriClosedForm(n: nat)
    ensures 2 * Tri(n) == n * (n - 1)
  {
    if n > 0 {
      TriClosedForm(n - 1);
      calc {
        2 * Tri(n);
        2 * Tri(n - 1) + 2 * (n - 1);
        (n - 1) * (n - 2) + 2 * (n - 1);
        n * (n - 1);
      }
    }
  }

  lemma {:induction false} TriMonotone(m: nat, n: nat)
    requires m <= n
    ensures Tri(m) <= Tri(n)
  {
    if m < n {
      TriMonotone(m, n - 1);
    }
  }

  /** Every pair j < i < n has its flag among the first Tri(n) positions. */
  lemma TriIndexBelow(i: nat, j: nat, n: nat)
    requires j < i < n
    ensures TriIndex(i, j) < Tri(n)
  {
    TriMonotone(i + 1, n);
  }

  /** Distinct pairs use distinct positions. */
  lemma TriIndexInjective(i: nat, j: nat, i': nat, j': nat)
    requires j < i && j' < i'
    requires TriIndex(i, j) == TriIndex(i', j')
    ensures i == i' && j == j'
  {
    if i < i' {
      TriIndexBelow(i, j, i');
    } else if i' < i {
      TriIndexBelow(i', j', i);
    }
  }

  /** Every position below Tri(n) belongs to some pair j < i < n. */
  lemma {:induction false} TriIndexOnto(l: nat, n: nat)
    requires l < Tri(n)
    ensures exists i, j :: 0 <= j < i < n && TriIndex(i, j) == l
  {
    if l < Tri(n - 1) {
      TriIndexOnto(l, n - 1);
      var i, j :| 0 <= j < i < n - 1 && TriIndex(i, j) == l;
      assert 0 <= j < i < n && TriIndex(i, j) == l;
    } else {
      assert TriIndex(n - 1, l - Tri(n - 1)) == l;
    }
  }

  // ---------------------------------------------------------------------
  // Single-edge seeds

  /** The seeds for the edges src -> d listed in dsts: [src, d] when src < d. */
  function EdgeSeeds(src: nat, dsts: seq<nat>): seq<Embedding>
  {
    if dsts == [] then []
    else
      var d := dsts[|dsts| - 1];
      EdgeSeeds(src, dsts[..|dsts| - 1]) + (if src < d then [[src, d]] else [])
  }

  /** The seeds of the first m vertices, vertex by vertex. */
  function SeedsUpTo(g: AdjLists, m: nat): seq<Embedding>
    requires m <= |g|
  {
    if m == 0 then [] else SeedsUpTo(g, m - 1) + EdgeSeeds(m - 1, g[m - 1])
  }

  /** All single-edge embeddings of the graph. */
  function SeedEmbeddings(g: AdjLists): seq<Embedding>
  {
    SeedsUpTo(g, |g|)
  }

  lemma {:induction false} EdgeSeedsCount(src: nat, dsts: seq<nat>, e: Embedding)
    ensures multiset(EdgeSeeds(src, dsts))[e] ==
      if |e| == 2 && e[0] == src && src < e[1] then multiset(dsts)[e[1]] else 0
  {
    if dsts != [] {
      var init, d := dsts[..|dsts| - 1], dsts[|dsts| - 1];
      EdgeSeedsCount(src, init, e);
      assert dsts == init + [d];
      assert multiset(dsts) == multiset(init) + multiset{d};
      if src < d {
        assert |e| == 2 && e[0] == src && e[1] == d ==> e == [src, d];
        assert multiset(EdgeSeeds(src, dsts)) == multiset(EdgeSeeds(src, init)) + multiset{[src, d]};
      }
    }
  }

  lemma {:induction false} SeedsUpToCount(g: AdjLists, m: nat, e: Embedding)
    requires m <= |g|
    ensures multiset(SeedsUpTo(g, m))[e] ==
      if |e| == 2 && e[0] < m && e[0] < e[1] then multiset(g[e[0]])[e[1]] else 0
  {
    if m > 0 {
      SeedsUpToCount(g, m - 1, e);
      EdgeSeedsCount(m - 1, g[m - 1], e);
      var before, row := SeedsUpTo(g, m - 1), EdgeSeeds(m - 1, g[m - 1]);
      assert multiset(SeedsUpTo(g, m)) == multiset(before) + multiset(row);
      if |e| == 2 && e[0] < m && e[0] < e[1] {
        if e[0] == m - 1 {
          assert multiset(before)[e] == 0;
        } else {
          assert multiset(row)[e] == 0;
        }
      }
    }
  }

  /**
   * Each edge src -> dst with src < dst yields exactly one seed [src, dst]
   * (so a pair linked by k such edges yields k seeds), and nothing else is
   * a seed.
   */
  lemma SeedEmbeddingsCount(g: AdjLists, e: Embedding)
    ensures multiset(SeedEmbeddings(g))[e] ==
      if |e| == 2 && e[0] < |g| && e[0] < e[1] then multiset(g[e[0]])[e[1]] else 0
  {
    SeedsUpToCount(g, |g|, e);
  }

  /** Membership form of SeedEmbeddingsCount. */
  lemma SeedEmbeddingsMembers(g: AdjLists, e: Embedding)
    ensures e in SeedEmbeddings(g) <==>
      |e| == 2 && e[0] < |g| && e[0] < e[1] && e[1] in g[e[0]]
  {
    SeedEmbeddingsCount(g, e);
    assert e in SeedEmbeddings(g) <==> multiset(SeedEmbeddings(g))[e] > 0;
    if |e| == 2 && e[0] < |g| {
      assert e[1] in g[e[0]] <==> multiset(g[e[0]])[e[1]] > 0;
    }
  }

  // ---------------------------------------------------------------------

  /** Is `target` among `edges`?  The scan loop of `is_connected`. */
  method ScanEdges(edges: seq<nat>, target: nat) returns (found: bool)
    ensures found <==> target in edges
  {
    found := false;
    var k := 0;
    while k < |edges|
      invariant 0 <= k <= |edges|
      invariant target !in edges[..k]
    {
      if edges[k] == target {
        found := true;
        break;
      }
      k := k + 1;
    }
    assert found || edges[..k] == edges;
  }

  class Miner {
    const graph: AdjLists
    /** degrees[v] is the number of edges of v once DegreeCounting has run. */
    var degrees: seq<nat>

    constructor (g: AdjLists)
      ensures graph == g && degrees == []
    {
      graph := g;
      degrees := [];
    }

    /**
     * Seed the embedding queue: one embedding [src, dst] per edge with
     * src < dst.  The entries already queued stay in place; the new ones
     * come in an unspecified order, so only their multiset is fixed.
     */
    method Init(queue: seq<Embedding>) returns (queue': seq<Embedding>)
      ensures |queue| <= |queue'| && queue'[..|queue|] == queue
      ensures multiset(queue'[|queue|..]) == multiset(SeedEmbeddings(graph))
    {
      queue' := queue;
      var src := 0;
      while src < |graph|
        invariant 0 <= src <= |graph|
        invariant queue' == queue + SeedsUpTo(graph, src)
      {
        ghost var base := queue';
        var k := 0;
        while k < |graph[src]|
          invariant 0 <= k <= |graph[src]|
          invariant queue' == base + EdgeSeeds(src, graph[src][..k])
        {
          var dst := graph[src][k];
          assert graph[src][..k + 1][..k] == graph[src][..k];
          assert EdgeSeeds(src, graph[src][..k + 1]) ==
            EdgeSeeds(src, graph[src][..k]) + (if src < dst then [[src, dst]] else []);
          if src < dst {
            queue' := queue' + [[src, dst]];
          }
          k := k + 1;
        }
        assert graph[src][..k] == graph[src];
        assert SeedsUpTo(graph, src + 1) == SeedsUpTo(graph, src) + EdgeSeeds(src, graph[src]);
        src := src + 1;
      }
      assert queue'[|queue|..] == SeedEmbeddings(graph);
    }

    /** Record every vertex's number of edges, resizing `degrees` to the graph. */
    method DegreeCounting()
      modifies this
      ensures |degrees| == |graph|
      ensures forall v :: 0 <= v < |graph| ==> degrees[v] == |graph[v]|
    {
      var n := |graph|;
      degrees := if |degrees| >= n then degrees[..n] else degrees + seq(n - |degrees|, _ => 0);
      var v := 0;
      while v < n
        invariant 0 <= v <= n && |degrees| == n
        invariant forall u :: 0 <= u < v ==> degrees[u] == |graph[u]|
      {
        degrees := degrees[v := |graph[v]|];
        v := v + 1;
      }
    }

    /** Every vertex of `emb` but the last is adjacent to `dst`. */
    method IsAllConnected(dst: nat, emb: Embedding) returns (all: bool)
      requires |emb| >= 1
      requires |degrees| == |graph|
      requires dst < |graph| && forall i :: 0 <= i < |emb| - 1 ==> emb[i] < |graph|
      ensures all <==> forall i :: 0 <= i < |emb| - 1 ==> ScanConnected(graph, degrees, emb[i], dst)
    {
      var n := |emb|;
      all := true;
      var i := 0;
      while i < n - 1
        invariant 0 <= i <= n - 1
        invariant all
        invariant forall k :: 0 <= k < i ==> ScanConnected(graph, degrees, emb[k], dst)
      {
        var c := IsConnected(emb[i], dst);
        if !c {
          all := false;
          break;
        }
        i := i + 1;
      }
    }

    /** The adjacency test, scanning the list of the lower-degree endpoint. */
    method IsConnected(from: nat, to: nat) returns (connected: bool)
      requires |degrees| == |graph|
      requires from < |graph| && to < |graph|
      ensures connected == ScanConnected(graph, degrees, from, to)
    {
      if degrees[from] < degrees[to] {
        connected := ScanEdges(graph[from], to);
      } else {
        connected := ScanEdges(graph[to], from);
      }
    }

    /**
     * Fill the symmetric 0/1 adjacency matrix of an n-vertex pattern from
     * its lower-triangle flags: flag TriIndex(i, j) = i(i-1)/2 + j describes
     * the pair j < i.  A set flag writes 1 at (i, j) and (j, i); everything
     * else, the diagonal included, keeps its value.
     */
    method GenAdjMatrix(n: nat, connected: seq<bool>, a: array2<real>)
      requires n <= a.Length0 && n <= a.Length1
      requires Tri(n) <= |connected|
      modifies a
      ensures forall i, j :: 0 <= j < i < n ==>
        TriIndex(i, j) < |connected| &&
        a[i, j] == (if connected[TriIndex(i, j)] then 1.0 else old(a[i, j])) &&
        a[j, i] == (if connected[TriIndex(i, j)] then 1.0 else old(a[j, i]))
      ensures forall i, j :: 0 <= i < a.Length0 && 0 <= j < a.Length1 && (i == j || i >= n || j >= n) ==>
        a[i, j] == old(a[i, j])
    {
      forall p, q, m | 0 <= q < p < m
        ensures TriIndex(p, q) < Tri(m)
      {
        TriIndexBelow(p, q, m);
      }
      var l := 0;
      var i := 1;
      while i < n
        invariant 1 <= i && (i <= n || i == 1)
        invariant l == Tri(i)
        invariant forall p, q :: 0 <= p < a.Length0 && 0 <= q < a.Length1 ==>
          a[p, q] == Written(connected, i, 0, p, q, old(a[p, q]))
      {
        var j := 0;
        while j < i
          invariant 0 <= j <= i
          invariant l == Tri(i) + j
          invariant forall p, q :: 0 <= p < a.Length0 && 0 <= q < a.Length1 ==>
            a[p, q] == Written(connected, i, j, p, q, old(a[p, q]))
        {
          TriIndexBelow(i, j, n);
          if connected[l] {
            a[i, j] := 1.0;
            a[j, i] := 1.0;
          }
          l := l + 1;
          j := j + 1;
        }
        i := i + 1;
      }
    }

    /**
     * The connectivity flags of the pattern whose vertices are emb[..n]
     * followed by the new vertex dst, which extends emb at position idx.
     * The flags are appended to `connected` in lower-triangle order: first
     * the pair (1, 0), assumed linked; then one flag per pair j < i for
     * 2 <= i < n, at TriIndex(i, j); then one flag per j < n for the pair
     * (n, j), true for j == idx and otherwise the adjacency of emb[j] and
     * dst.  For n >= 2 this is the full layout read by GenAdjMatrix for
     * n + 1 vertices.
     */
    method GetConnectivity(n: nat, idx: nat, dst: nat, emb: Embedding, connected: seq<bool>)
      returns (connected': seq<bool>)
      requires n <= |emb|
      requires |degrees| == |graph|
      requires dst < |graph| && forall k :: 0 <= k < n ==> emb[k] < |graph|
      ensures |connected'| == |connected| + (if n < 2 then n + 1 else Tri(n + 1))
      ensures connected'[..|connected|] == connected
      ensures connected'[|connected|]
      ensures forall i, j :: 2 <= i < n && 0 <= j < i ==>
        FlagIs(connected', |connected| + TriIndex(i, j), ScanConnected(graph, degrees, emb[i], emb[j]))
      ensures forall j :: 0 <= j < n ==>
        FlagIs(connected', |connected| + (if n < 2 then 1 else Tri(n)) + j,
               j == idx || ScanConnected(graph, degrees, emb[j], dst))
    {
      var c0 := |connected|;
      connected' := connected + [true];
      var i := 2;
      while i < n
        invariant 2 <= i && (i <= n || i == 2)
        invariant |connected'| == c0 + Tri(i)
        invariant connected'[..c0] == connected && connected'[c0]
        invariant forall p, q :: 2 <= p < i && 0 <= q < p ==>
          FlagIs(connected', c0 + TriIndex(p, q), ScanConnected(graph, degrees, emb[p], emb[q]))
      {
        var row := PairRow(i, emb);
        connected' := connected' + row;
        i := i + 1;
      }
      ghost var start := if n < 2 then 1 else Tri(n);
      assert |connected'| == c0 + start;
      var last := ExtensionRow(n, idx, dst, emb);
      connected' := connected' + last;
    }

    /** The inner loop of the pair flags: row i, one flag per j < i. */
    method PairRow(i: nat, emb: Embedding) returns (row: seq<bool>)
      requires i < |emb|
      requires |degrees| == |graph|
      requires forall k :: 0 <= k <= i ==> emb[k] < |graph|
      ensures |row| == i
      ensures forall j :: 0 <= j < i ==> row[j] == ScanConnected(graph, degrees, emb[i], emb[j])
    {
      row := [];
      var j := 0;
      while j < i
        invariant 0 <= j <= i && |row| == j
        invariant forall q :: 0 <= q < j ==> row[q] == ScanConnected(graph, degrees, emb[i], emb[q])
      {
        var c := IsConnected(emb[i], emb[j]);
        row := row + [c];
        j := j + 1;
      }
    }

    /** The last loop: the flags of the new vertex dst against emb[..n]. */
    method ExtensionRow(n: nat, idx: nat, dst: nat, emb: Embedding) returns (row: seq<bool>)
      requires n <= |emb|
      requires |degrees| == |graph|
      requires dst < |graph| && forall k :: 0 <= k < n ==> emb[k] < |graph|
      ensures |row| == n
      ensures forall j :: 0 <= j < n ==> row[j] == (j == idx || ScanConnected(graph, degrees, emb[j], dst))
    {
      row := [];
      var j := 0;
      while j < n
        invariant 0 <= j <= n && |row| == j
        invariant forall q :: 0 <= q < j ==> row[q] == (q == idx || ScanConnected(graph, degrees, emb[q], dst))
      {
        if j == idx {
          row := row + [true];
        } else {
          var c := IsConnected(emb[j], dst);
          row := row + [c];
        }
        j := j + 1;
      }
    }
  }

  /** Position k of `flags` exists and holds b. */
  ghost predicate FlagIs(flags: seq<bool>, k: nat, b: bool)
  {
    k < |flags| && flags[k] == b
  }

  /**
   * The value of matrix entry (p, q) once the flag loop of GenAdjMatrix has
   * handled every pair of rows before i and the pairs (i, q) with q < j.
   */
  ghost function Written(connected: seq<bool>, i: nat, j: nat, p: nat, q: nat, was: real): real
  {
    if q < p && (p < i || (p == i && q < j)) && TriIndex(p, q) < |connected| && connected[TriIndex(p, q)] then 1.0
    else if p < q && (q < i || (q == i && p < j)) && TriIndex(q, p) < |connected| && connected[TriIndex(q, p)] then 1.0
    else was
  }
}
