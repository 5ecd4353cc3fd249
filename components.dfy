/** `find_connected_components`: split the nodes of an adjacency list into
    clusters by breadth-first search, starting a new cluster at each node not
    yet visited, in ascending order. */
module Components {
  import opened CollaborationGraph

  /** The outcome of the search. `find_connected_components` indexes its `visited` vector with
      each neighbour, so a neighbour index at or beyond the number of nodes
      aborts the run; that abort is `Panicked`, naming the node whose list
      held the bad index. */
  datatype ComponentsResult =
    | Clusters(clusters: seq<seq<nat>>)
    | Panicked(node: nat, neighbour: nat)

  /** How one breadth-first search from a start node ended. */
  datatype Scan = Finished | OutOfBounds(node: nat, neighbour: nat)

  /** The clusters one after another. */
  function Flatten(cs: seq<seq<nat>>): seq<nat>
  {
    if cs == [] then [] else Flatten(cs[..|cs| - 1]) + cs[|cs| - 1]
  }

  predicate NoDuplicates(s: seq<nat>)
  {
    forall p, q :: 0 <= p < q < |s| ==> s[p] != s[q]
  }

  predicate AllBelow(s: seq<nat>, n: nat)
  {
    forall k :: 0 <= k < |s| ==> s[k] < n
  }

  /** A walk along edges of the graph. */
  ghost predicate IsPath(adj: AdjacencyList, p: seq<nat>)
  {
    |p| > 0 &&
    forall k :: 0 <= k < |p| - 1 ==> p[k] < |adj| && p[k + 1] in adj[p[k]]
  }

  ghost predicate Reachable(adj: AdjacencyList, s: nat, t: nat)
  {
    exists p {:trigger IsPath(adj, p)} :: IsPath(adj, p) && p[0] == s && p[|p| - 1] == t
  }

  /** Every node 0..n-1 occurs exactly once across the clusters, and no
      cluster is empty. */
  ghost predicate IsPartition(n: nat, cs: seq<seq<nat>>)
  {
    NoDuplicates(Flatten(cs)) &&
    (forall v :: v in Flatten(cs) <==> 0 <= v < n) &&
    (forall c :: 0 <= c < |cs| ==> cs[c] != [])
  }

  /** Each cluster begins with its smallest member. */
  ghost predicate StartsWithSmallest(cs: seq<seq<nat>>)
  {
    forall c, k :: 0 <= c < |cs| && 0 <= k < |cs[c]| ==> cs[c][0] <= cs[c][k]
  }

  /** Clusters come in strictly ascending order of their first members. */
  ghost predicate OrderedByStart(cs: seq<seq<nat>>)
  {
    forall c1, c2 :: 0 <= c1 < c2 < |cs| && cs[c1] != [] && cs[c2] != [] ==> cs[c1][0] < cs[c2][0]
  }

  /** Every neighbour of a member of cluster c is a node of the graph and lies
      in cluster c or an earlier one (on a symmetric graph, always in c
      itself: see `SymmetricClustersClosed`). */
  ghost predicate NeighboursInEarlierClusters(adj: AdjacencyList, cs: seq<seq<nat>>)
  {
    forall c :: 0 <= c < |cs| ==> NeighboursWithin(adj, cs[c], Flatten(cs[..c + 1]))
  }

  /** Every neighbour of a node in `members` is a node of the graph that
      occurs in `region`. */
  ghost predicate NeighboursWithin(adj: AdjacencyList, members: seq<nat>, region: seq<nat>)
  {
    forall k :: 0 <= k < |members| && members[k] < |adj| ==>
      forall w :: w in adj[members[k]] ==> w < |adj| && w in region
  }

  /** No edge leads from a node of `region` to a node outside it. */
  ghost predicate ClosedUnderEdges(adj: AdjacencyList, region: seq<nat>)
  {
    forall u, w :: u in region && u < |adj| && w in adj[u] ==> w in region
  }

  /** Every member of a cluster is reachable from the cluster's first member. */
  ghost predicate ConnectedToStart(adj: AdjacencyList, cs: seq<seq<nat>>)
  {
    forall c, k :: 0 <= c < |cs| && 0 <= k < |cs[c]| && cs[c] != [] ==> Reachable(adj, cs[c][0], cs[c][k])
  }

  /** What a run of the search that does not panic returns: a partition of
      the nodes into clusters, each beginning with its smallest member, in
      ascending order of those members, where the neighbours of a member
      never lie in a later cluster and every member is reachable from its
      cluster's first member. */
  ghost predicate IsClustering(adj: AdjacencyList, cs: seq<seq<nat>>)
  {
    IsPartition(|adj|, cs) && StartsWithSmallest(cs) && OrderedByStart(cs) &&
    NeighboursInEarlierClusters(adj, cs) && ConnectedToStart(adj, cs)
  }

  /** The clusters found so far: their nodes are distinct nodes of the graph
      and they have the shape of `IsClustering` apart from covering every
      node. */
  ghost predicate ClustersSoFar(adj: AdjacencyList, cs: seq<seq<nat>>)
  {
    NoDuplicates(Flatten(cs)) && AllBelow(Flatten(cs), |adj|) &&
    (forall c :: 0 <= c < |cs| ==> cs[c] != []) &&
    StartsWithSmallest(cs) && OrderedByStart(cs) &&
    NeighboursInEarlierClusters(adj, cs) && ConnectedToStart(adj, cs)
  }

  /** The state of the outer loop before start node `node`: the clusters so
      far hold exactly the visited nodes, which include every node below
      `node`, and each begins below `node`. */
  ghost predicate Outer(adj: AdjacencyList, seen: seq<bool>, cs: seq<seq<nat>>, node: nat)
  {
    |seen| == |adj| && node <= |adj| && ClustersSoFar(adj, cs) &&
    (forall c :: 0 <= c < |cs| ==> cs[c][0] < node) &&
    (forall v :: 0 <= v < |adj| ==> (seen[v] <==> v in Flatten(cs))) &&
    (forall v :: 0 <= v < node ==> seen[v])
  }

  // ---------------------------------------------------------------------
  // The search

  /** The state of one search from `start`: `before` holds the earlier
      clusters, `cluster` the nodes popped so far and `queue` the nodes
      waiting; together they are exactly the nodes marked in `seen`, each once.
      Every node of this search is at least `start` and reachable from it. */
  ghost predicate Frontier(adj: AdjacencyList, seen: seq<bool>, start: nat,
                           before: seq<nat>, cluster: seq<nat>, queue: seq<nat>)
  {
    |seen| == |adj| && start < |adj| &&
    NoDuplicates(before + cluster + queue) &&
    AllBelow(before, |adj|) && AllBelow(cluster, |adj|) && AllBelow(queue, |adj|) &&
    (forall v :: 0 <= v < |adj| ==> (seen[v] <==> v in before + cluster + queue)) &&
    (forall v :: 0 <= v < start ==> v in before) &&
    (forall k :: 0 <= k < |cluster| ==> start <= cluster[k] && Reachable(adj, start, cluster[k])) &&
    (forall k :: 0 <= k < |queue| ==> start <= queue[k] && Reachable(adj, start, queue[k]))
  }

  /** The state at the head of the search loop: the cluster begins with
      `start` (or nothing is popped yet and the queue holds just `start`), and
      the neighbours of every popped node are already seen. */
  ghost predicate Searching(adj: AdjacencyList, seen: seq<bool>, start: nat,
                            before: seq<nat>, cluster: seq<nat>, queue: seq<nat>)
  {
    Frontier(adj, seen, start, before, cluster, queue) &&
    (cluster == [] ==> queue == [start]) &&
    (cluster != [] ==> cluster[0] == start) &&
    NeighboursWithin(adj, cluster, before + cluster + queue)
  }

  /** The state while the neighbours of the last popped node are scanned: the
      first `i` of them are in range and seen. */
  ghost predicate Scanning(adj: AdjacencyList, seen: seq<bool>, start: nat,
                           before: seq<nat>, cluster: seq<nat>, queue: seq<nat>, i: nat)
  {
    Frontier(adj, seen, start, before, cluster, queue) &&
    cluster != [] && cluster[0] == start &&
    NeighboursWithin(adj, cluster[..|cluster| - 1], before + cluster + queue) &&
    i <= |adj[cluster[|cluster| - 1]]| &&
    ScannedPrefix(adj, cluster[|cluster| - 1], i, before + cluster + queue)
  }

  /** The first `i` neighbours of `u` are nodes of the graph that occur in
      `region`. */
  ghost predicate ScannedPrefix(adj: AdjacencyList, u: nat, i: nat, region: seq<nat>)
    requires u < |adj| && i <= |adj[u]|
  {
    forall j :: 0 <= j < i ==> adj[u][j] < |adj| && adj[u][j] in region
  }

  /** The outcome of a finished search from `start`, with `before` the
      nodes of the earlier clusters: a cluster that begins with `start`,
      holds only new nodes, each at least `start` and reachable from it, and
      leaves marked exactly `before` and itself; every neighbour of a member
      is a node of the graph that is marked. */
  ghost predicate Explored(adj: AdjacencyList, seen: seq<bool>, start: nat, before: seq<nat>, cluster: seq<nat>)
  {
    |seen| == |adj| && cluster != [] && cluster[0] == start &&
    NoDuplicates(before + cluster) && AllBelow(cluster, |adj|) &&
    (forall v :: 0 <= v < |adj| ==> (seen[v] <==> v in before + cluster)) &&
    (forall k :: 0 <= k < |cluster| ==> start <= cluster[k]) &&
    NeighboursWithin(adj, cluster, before + cluster) &&
    (forall k :: 0 <= k < |cluster| ==> Reachable(adj, start, cluster[k]))
  }

  /** One breadth-first search from `start`, which is not yet visited: pop the
      front of the queue, append it to the cluster, mark and enqueue each of
      its neighbours not yet visited. `before` holds the nodes of the earlier
      clusters, which are exactly the nodes already visited. */
  method ExploreCluster(adj: AdjacencyList, visited: array<bool>, start: nat, ghost before: seq<nat>)
    returns (cluster: seq<nat>, scan: Scan)
    requires visited.Length == |adj| && start < |adj| && !visited[start]
    requires NoDuplicates(before) && AllBelow(before, |adj|)
    requires forall v :: 0 <= v < |adj| ==> (visited[v] <==> v in before)
    requires forall v :: 0 <= v < start ==> v in before
    requires ClosedUnderEdges(adj, before)
    modifies visited
    ensures scan.OutOfBounds? ==>
      scan.node < |adj| && scan.neighbour in adj[scan.node] && scan.neighbour >= |adj|
    ensures scan.Finished? ==> Explored(adj, visited[..], start, before, cluster)
    ensures scan.Finished? ==> forall v :: v in cluster <==> v !in before && Reachable(adj, start, v)
  {
    var n := |adj|;
    ghost var seen := visited[..];
    cluster := [];
    var queue: seq<nat> := [start];
    visited[start] := true;
    SearchStart(adj, seen, start, before);
    assert visited[..] == seen[start := true];
    while queue != []
      invariant Searching(adj, visited[..], start, before, cluster, queue)
      decreases n - |before + cluster|
    {
      PopStep(adj, visited[..], start, before, cluster, queue);
      var current := queue[0];
      queue := queue[1..];
      cluster := cluster + [current];
      var fault;
      queue, fault := ScanNeighbours(adj, visited, current, queue, start, before, cluster);
      if fault.OutOfBounds? {
        return cluster, fault;
      }
    }
    SearchDone(adj, visited[..], start, before, cluster);
    ExploredReach(adj, visited[..], start, before, cluster);
    scan := Finished;
  }

  /** With the earlier clusters closed under edges, a finished search holds
      exactly the nodes outside them that are reachable from its start. */
  lemma ExploredReach(adj: AdjacencyList, seen: seq<bool>, start: nat, before: seq<nat>, cluster: seq<nat>)
    requires Explored(adj, seen, start, before, cluster) && ClosedUnderEdges(adj, before)
    ensures forall v :: v in cluster <==> v !in before && Reachable(adj, start, v)
  {
    var region := set x | x in before + cluster;
    forall u, w | u in region && u < |adj| && w in adj[u] ensures w in region {
      if u !in before {
        var k :| 0 <= k < |cluster| && cluster[k] == u;
      }
    }
    forall v ensures v in cluster <==> v !in before && Reachable(adj, start, v) {
      if v in cluster {
        var k :| 0 <= k < |cluster| && cluster[k] == v;
        var j := |before| + k;
        assert (before + cluster)[j] == v;
        forall i | 0 <= i < |before| ensures before[i] != v {
          assert (before + cluster)[i] == before[i];
        }
      }
      if Reachable(adj, start, v) {
        var p :| IsPath(adj, p) && p[0] == start && p[|p| - 1] == v;
        assert start in before + cluster;
        WalkStaysIn(adj, region, p);
      }
    }
  }

  /** The inner loop of the search: mark and enqueue each neighbour of
      `current`, the node just popped, that is not yet visited. */
  method ScanNeighbours(adj: AdjacencyList, visited: array<bool>, current: nat, queue: seq<nat>,
                        ghost start: nat, ghost before: seq<nat>, ghost cluster: seq<nat>)
    returns (queue': seq<nat>, scan: Scan)
    requires visited.Length == |adj| && cluster != [] && cluster[|cluster| - 1] == current
    requires Scanning(adj, visited[..], start, before, cluster, queue, 0)
    modifies visited
    ensures scan.OutOfBounds? ==>
      scan.node < |adj| && scan.neighbour in adj[scan.node] && scan.neighbour >= |adj|
    ensures scan.Finished? ==> Searching(adj, visited[..], start, before, cluster, queue')
    ensures scan.Finished? ==> queue' == queue + Unseen(adj[current], old(visited[..]))
    ensures scan.Finished? ==> forall v :: 0 <= v < |adj| ==>
      (visited[v] <==> old(visited[v]) || v in Unseen(adj[current], old(visited[..])))
  {
    var n := |adj|;
    ghost var marks := visited[..];
    queue' := queue;
    for i := 0 to |adj[current]|
      invariant Scanning(adj, visited[..], start, before, cluster, queue', i)
      invariant ScanProgress(visited[..], marks, queue, queue', adj[current], i)
    {
      var neighbour := adj[current][i];
      if neighbour >= n {
        return queue', OutOfBounds(current, neighbour);
      }
      ghost var seen := visited[..];
      ScanProgressStep(seen, marks, queue, queue', adj[current], i);
      if !visited[neighbour] {
        PushStep(adj, seen, start, before, cluster, queue', i);
        visited[neighbour] := true;
        assert visited[..] == seen[neighbour := true];
        queue' := queue' + [neighbour];
      } else {
        SkipStep(adj, seen, start, before, cluster, queue', i);
      }
    }
    CloseStep(adj, visited[..], start, before, cluster, queue');
    assert adj[current][..|adj[current]|] == adj[current];
    scan := Finished;
  }

  /** The neighbours in `ns` that `marks` leaves unmarked, in list order and
      each once: the nodes one scan of `ns` enqueues. */
  function Unseen(ns: seq<nat>, marks: seq<bool>): seq<nat>
  {
    if ns == [] then []
    else
      var init := Unseen(ns[..|ns| - 1], marks);
      var w := ns[|ns| - 1];
      if w < |marks| && !marks[w] && w !in init then init + [w] else init
  }

  /** What a scan enqueues: each unmarked neighbour, once. */
  lemma {:induction false} UnseenMembers(ns: seq<nat>, marks: seq<bool>)
    ensures forall v :: v in Unseen(ns, marks) <==> v in ns && v < |marks| && !marks[v]
    ensures NoDuplicates(Unseen(ns, marks))
  {
    if ns != [] {
      var init := ns[..|ns| - 1];
      UnseenMembers(init, marks);
      assert ns == init + [ns[|ns| - 1]];
      var u := Unseen(init, marks);
      var w := ns[|ns| - 1];
      if w < |marks| && !marks[w] && w !in u {
        forall p, q | 0 <= p < q < |u + [w]| ensures (u + [w])[p] != (u + [w])[q] {
          if q == |u| { assert u[p] in u; }
        }
      }
    }
  }

  /** The progress of a scan after the first `i` neighbours in `ns`, from
      marks `marks` and queue `queue`: the unmarked ones so far are appended
      to the queue, and exactly they are newly marked in `seen`. */
  ghost predicate ScanProgress(seen: seq<bool>, marks: seq<bool>, queue: seq<nat>, queue': seq<nat>,
                               ns: seq<nat>, i: nat)
  {
    |seen| == |marks| && i <= |ns| &&
    queue' == queue + Unseen(ns[..i], marks) &&
    forall v :: 0 <= v < |seen| ==> (seen[v] <==> marks[v] || v in Unseen(ns[..i], marks))
  }

  lemma ScanProgressStep(seen: seq<bool>, marks: seq<bool>, queue: seq<nat>, queue': seq<nat>,
                         ns: seq<nat>, i: nat)
    requires ScanProgress(seen, marks, queue, queue', ns, i) && i < |ns| && ns[i] < |seen|
    ensures !seen[ns[i]] ==> ScanProgress(seen[ns[i] := true], marks, queue, queue' + [ns[i]], ns, i + 1)
    ensures seen[ns[i]] ==> ScanProgress(seen, marks, queue, queue', ns, i + 1)
  {
    assert ns[..i + 1][..i] == ns[..i];
  }

  lemma SearchStart(adj: AdjacencyList, seen: seq<bool>, start: nat, before: seq<nat>)
    requires |seen| == |adj| && start < |adj| && !seen[start]
    requires NoDuplicates(before) && AllBelow(before, |adj|)
    requires forall v :: 0 <= v < |adj| ==> (seen[v] <==> v in before)
    requires forall v :: 0 <= v < start ==> v in before
    ensures Searching(adj, seen[start := true], start, before, [], [start])
  {
    ReachableRefl(adj, start);
    assert before + [] + [start] == before + [start];
    assert AllBelow([start], |adj|);
  }

  /** Popping the front of the queue starts the scan of its neighbours; there
      is room for it below `|adj|`. */
  lemma PopStep(adj: AdjacencyList, seen: seq<bool>, start: nat,
                before: seq<nat>, cluster: seq<nat>, queue: seq<nat>)
    requires Searching(adj, seen, start, before, cluster, queue) && queue != []
    ensures Scanning(adj, seen, start, before, cluster + [queue[0]], queue[1..], 0)
    ensures |before + cluster| < |adj|
  {
    FrontierPop(adj, seen, start, before, cluster, queue);
    assert (cluster + [queue[0]])[..|cluster|] == cluster;
  }

  /** Marking and enqueuing the i-th neighbour of the last popped node, which
      is in range and not yet seen, moves the scan on by one. */
  lemma PushStep(adj: AdjacencyList, seen: seq<bool>, start: nat,
                 before: seq<nat>, cluster: seq<nat>, queue: seq<nat>, i: nat)
    requires Scanning(adj, seen, start, before, cluster, queue, i)
    requires i < |adj[cluster[|cluster| - 1]]|
    requires adj[cluster[|cluster| - 1]][i] < |adj| && !seen[adj[cluster[|cluster| - 1]][i]]
    ensures Scanning(adj, seen[adj[cluster[|cluster| - 1]][i] := true], start, before, cluster,
                     queue + [adj[cluster[|cluster| - 1]][i]], i + 1)
  {
    var u := cluster[|cluster| - 1];
    var w := adj[u][i];
    var region := before + cluster + queue;
    FrontierPush(adj, seen, start, before, cluster, queue, u, w);
    NeighboursWithinGrow(adj, cluster[..|cluster| - 1], region, w);
    assert region + [w] == before + cluster + (queue + [w]);
  }

  /** A neighbour already seen is left alone. */
  lemma SkipStep(adj: AdjacencyList, seen: seq<bool>, start: nat,
                 before: seq<nat>, cluster: seq<nat>, queue: seq<nat>, i: nat)
    requires Scanning(adj, seen, start, before, cluster, queue, i)
    requires i < |adj[cluster[|cluster| - 1]]|
    requires adj[cluster[|cluster| - 1]][i] < |adj| && seen[adj[cluster[|cluster| - 1]][i]]
    ensures Scanning(adj, seen, start, before, cluster, queue, i + 1)
  {
  }

  /** All neighbours of the last popped node scanned: back at the loop head. */
  lemma CloseStep(adj: AdjacencyList, seen: seq<bool>, start: nat,
                  before: seq<nat>, cluster: seq<nat>, queue: seq<nat>)
    requires cluster != [] && cluster[|cluster| - 1] < |adj|
    requires Scanning(adj, seen, start, before, cluster, queue, |adj[cluster[|cluster| - 1]]|)
    ensures Searching(adj, seen, start, before, cluster, queue)
  {
    var u := cluster[|cluster| - 1];
    NeighboursWithinClose(adj, cluster, u, before + cluster + queue);
  }

  /** An empty queue ends the search with the promised cluster. */
  lemma SearchDone(adj: AdjacencyList, seen: seq<bool>, start: nat, before: seq<nat>, cluster: seq<nat>)
    requires Searching(adj, seen, start, before, cluster, [])
    ensures Explored(adj, seen, start, before, cluster)
  {
    assert before + cluster + [] == before + cluster;
  }

  /** Popping the front of the queue onto the cluster keeps the state and the
      order of all nodes seen; there is room for it below `|adj|`. */
  lemma FrontierPop(adj: AdjacencyList, seen: seq<bool>, start: nat,
                    before: seq<nat>, cluster: seq<nat>, queue: seq<nat>)
    requires Frontier(adj, seen, start, before, cluster, queue) && queue != []
    ensures Frontier(adj, seen, start, before, cluster + [queue[0]], queue[1..])
    ensures before + (cluster + [queue[0]]) + queue[1..] == before + cluster + queue
    ensures |before + cluster| < |adj|
  {
    assert before + (cluster + [queue[0]]) + queue[1..] == before + cluster + queue;
    AllBelowConcat(before, cluster, queue, |adj|);
    DistinctBelowBound(before + cluster + queue, |adj|);
    var cluster' := cluster + [queue[0]];
    forall k | 0 <= k < |cluster'|
      ensures cluster'[k] < |adj| && start <= cluster'[k] && Reachable(adj, start, cluster'[k])
    {
      if k == |cluster| {
        assert cluster'[k] == queue[0];
      } else {
        assert cluster'[k] == cluster[k];
      }
    }
    forall k | 0 <= k < |queue[1..]|
      ensures queue[1..][k] < |adj| && start <= queue[1..][k] && Reachable(adj, start, queue[1..][k])
    {
      assert queue[1..][k] == queue[k + 1];
    }
  }

  /** Marking and enqueuing an unvisited neighbour of a popped node keeps the
      state. */
  lemma FrontierPush(adj: AdjacencyList, seen: seq<bool>, start: nat,
                     before: seq<nat>, cluster: seq<nat>, queue: seq<nat>, u: nat, w: nat)
    requires Frontier(adj, seen, start, before, cluster, queue)
    requires cluster != [] && cluster[|cluster| - 1] == u
    requires w in adj[u] && w < |adj| && !seen[w]
    ensures Frontier(adj, seen[w := true], start, before, cluster, queue + [w])
    ensures before + cluster + (queue + [w]) == before + cluster + queue + [w]
  {
    var order := before + cluster + queue;
    assert order + [w] == before + cluster + (queue + [w]);
    assert w !in order;
    forall p, q | 0 <= p < q < |order + [w]| ensures (order + [w])[p] != (order + [w])[q] {
      if q == |order| { assert order[p] in order; }
    }
    assert start <= w by {
      assert w < start ==> w in before;
    }
    ReachableStep(adj, start, u, w);
    var queue' := queue + [w];
    forall k | 0 <= k < |queue'|
      ensures queue'[k] < |adj| && start <= queue'[k] && Reachable(adj, start, queue'[k])
    {
      if k == |queue| {
        assert queue'[k] == w;
      } else {
        assert queue'[k] == queue[k];
      }
    }
  }

  lemma NeighboursWithinGrow(adj: AdjacencyList, members: seq<nat>, region: seq<nat>, x: nat)
    requires NeighboursWithin(adj, members, region)
    ensures NeighboursWithin(adj, members, region + [x])
  {
  }

  /** Once all neighbours of the last member are scanned, the whole cluster's
      neighbours are in the region. */
  lemma NeighboursWithinClose(adj: AdjacencyList, cluster: seq<nat>, last: nat, region: seq<nat>)
    requires cluster != [] && cluster[|cluster| - 1] == last && last < |adj|
    requires NeighboursWithin(adj, cluster[..|cluster| - 1], region)
    requires forall j :: 0 <= j < |adj[last]| ==> adj[last][j] < |adj| && adj[last][j] in region
    ensures NeighboursWithin(adj, cluster, region)
  {
    forall k, w | 0 <= k < |cluster| && cluster[k] < |adj| && w in adj[cluster[k]]
      ensures w < |adj| && w in region
    {
      if k < |cluster| - 1 {
        assert cluster[..|cluster| - 1][k] == cluster[k];
      }
    }
  }

  /** `find_connected_components`: start a breadth-first search at each node
      not yet visited, in ascending order, and collect the clusters. The
      result is a partition of the nodes into clusters, each beginning with
      its smallest member, in ascending order of those members; a member's
      neighbours never lie in a later cluster; every member is reachable from
      its cluster's first member. The search panics exactly when some
      neighbour index is out of range. */
  method FindConnectedComponents(adj: AdjacencyList) returns (r: ComponentsResult)
    ensures r.Panicked? ==> r.node < |adj| && r.neighbour in adj[r.node] && r.neighbour >= |adj|
    ensures r.Clusters? <==> InRange(adj)
    ensures r.Clusters? ==> IsClustering(adj, r.clusters)
  {
    var n := |adj|;
    var visited := new bool[n](_ => false);
    var clusters: seq<seq<nat>> := [];
    OuterStart(adj, visited[..]);
    for node := 0 to n
      invariant Outer(adj, visited[..], clusters, node)
    {
      ghost var seen := visited[..];
      if !visited[node] {
        OuterReady(adj, seen, clusters, node);
        var cluster, scan := ExploreCluster(adj, visited, node, Flatten(clusters));
        if scan.OutOfBounds? {
          return Panicked(scan.node, scan.neighbour);
        }
        OuterStep(adj, seen, visited[..], clusters, cluster, node);
        clusters := clusters + [cluster];
      } else {
        OuterSkip(adj, seen, clusters, node);
      }
    }
    OuterDone(adj, visited[..], clusters);
    return Clusters(clusters);
  }

  lemma OuterStart(adj: AdjacencyList, seen: seq<bool>)
    requires |seen| == |adj| && forall v :: 0 <= v < |seen| ==> !seen[v]
    ensures Outer(adj, seen, [], 0)
  {
  }

  /** An unvisited node is a fine start for a search. */
  lemma OuterReady(adj: AdjacencyList, seen: seq<bool>, cs: seq<seq<nat>>, node: nat)
    requires Outer(adj, seen, cs, node) && node < |adj| && !seen[node]
    ensures NoDuplicates(Flatten(cs)) && AllBelow(Flatten(cs), |adj|)
    ensures forall v :: 0 <= v < |adj| ==> (seen[v] <==> v in Flatten(cs))
    ensures forall v :: 0 <= v < node ==> v in Flatten(cs)
    ensures ClosedUnderEdges(adj, Flatten(cs))
  {
    FlattenClosed(adj, cs);
  }

  /** Neighbours of the clusters found so far lie among them. */
  lemma FlattenClosed(adj: AdjacencyList, cs: seq<seq<nat>>)
    requires NeighboursInEarlierClusters(adj, cs)
    ensures ClosedUnderEdges(adj, Flatten(cs))
  {
    forall u, w | u in Flatten(cs) && u < |adj| && w in adj[u]
      ensures w in Flatten(cs)
    {
      NeighbourInFlatten(adj, cs, u, w);
    }
  }

  lemma NeighbourInFlatten(adj: AdjacencyList, cs: seq<seq<nat>>, u: nat, w: nat)
    requires NeighboursInEarlierClusters(adj, cs)
    requires u in Flatten(cs) && u < |adj| && w in adj[u]
    ensures w < |adj| && w in Flatten(cs)
  {
    FlattenMemberIndex(cs, u);
    var c, j :| 0 <= c < |cs| && 0 <= j < |cs[c]| && cs[c][j] == u;
    var pre := Flatten(cs[..c + 1]);
    assert NeighboursWithin(adj, cs[c], pre);
    assert w < |adj| && w in pre;
    FlattenPrefix(cs, c + 1);
    var m :| 0 <= m < |pre| && pre[m] == w;
    assert Flatten(cs)[m] == w;
  }

  lemma OuterSkip(adj: AdjacencyList, seen: seq<bool>, cs: seq<seq<nat>>, node: nat)
    requires Outer(adj, seen, cs, node) && node < |adj| && seen[node]
    ensures Outer(adj, seen, cs, node + 1)
  {
  }

  lemma OuterStep(adj: AdjacencyList, seen: seq<bool>, seen': seq<bool>,
                  cs: seq<seq<nat>>, cluster: seq<nat>, node: nat)
    requires Outer(adj, seen, cs, node) && node < |adj| && !seen[node]
    requires Explored(adj, seen', node, Flatten(cs), cluster)
    ensures Outer(adj, seen', cs + [cluster], node + 1)
  {
    AppendCluster(adj, cs, cluster, node);
    VisitedAfterSearch(seen, seen', Flatten(cs), cluster, node);
  }

  /** The nodes visited after the search from `node` include every node up
      to `node`. */
  lemma VisitedAfterSearch(seen: seq<bool>, seen': seq<bool>, flat: seq<nat>, cluster: seq<nat>, node: nat)
    requires |seen| == |seen'| && node < |seen| && cluster != [] && cluster[0] == node
    requires forall v :: 0 <= v < node ==> seen[v]
    requires forall v :: 0 <= v < |seen| ==> (seen[v] <==> v in flat)
    requires forall v :: 0 <= v < |seen| ==> (seen'[v] <==> v in flat + cluster)
    ensures forall v :: 0 <= v < node + 1 ==> seen'[v]
  {
    assert node in flat + cluster;
  }

  lemma OuterDone(adj: AdjacencyList, seen: seq<bool>, cs: seq<seq<nat>>)
    requires Outer(adj, seen, cs, |adj|)
    ensures IsClustering(adj, cs) && InRange(adj)
  {
    FinishPartition(|adj|, cs);
    FinishInRange(adj, cs);
  }

  // ---------------------------------------------------------------------
  // Lemmas the search needs

  lemma ReachableRefl(adj: AdjacencyList, s: nat)
    ensures Reachable(adj, s, s)
  {
    assert IsPath(adj, [s]);
  }

  /** One more edge extends a walk. */
  lemma ReachableStep(adj: AdjacencyList, s: nat, u: nat, w: nat)
    requires Reachable(adj, s, u) && u < |adj| && w in adj[u]
    ensures Reachable(adj, s, w)
  {
    var p :| IsPath(adj, p) && p[0] == s && p[|p| - 1] == u;
    var q := p + [w];
    assert IsPath(adj, q);
  }

  /** A list of distinct nodes below n has at most n entries. */
  lemma {:induction false} DistinctBelowBound(s: seq<nat>, n: nat)
    requires NoDuplicates(s) && AllBelow(s, n)
    ensures |s| <= n
  {
    if s != [] {
      assert 0 < n by { assert s[0] < n; }
      if n - 1 in s {
        var i :| 0 <= i < |s| && s[i] == n - 1;
        var t := s[..i] + s[i + 1..];
        assert |t| == |s| - 1;
        forall p, q | 0 <= p < q < |t| ensures t[p] != t[q] {
          var p' := if p < i then p else p + 1;
          var q' := if q < i then q else q + 1;
          assert t[p] == s[p'] && t[q] == s[q'];
        }
        forall k | 0 <= k < |t| ensures t[k] < n - 1 {
          var k' := if k < i then k else k + 1;
          assert s[k'] == t[k];
        }
        DistinctBelowBound(t, n - 1);
      } else {
        forall k | 0 <= k < |s| ensures s[k] < n - 1 {
          assert s[k] in s;
        }
        DistinctBelowBound(s, n - 1);
      }
    }
  }

  lemma AllBelowConcat(a: seq<nat>, b: seq<nat>, c: seq<nat>, n: nat)
    requires AllBelow(a, n) && AllBelow(b, n) && AllBelow(c, n)
    ensures AllBelow(a + b + c, n)
  {
    forall k | 0 <= k < |a + b + c| ensures (a + b + c)[k] < n {
      if k < |a| {
        assert (a + b + c)[k] == a[k];
      } else if k < |a| + |b| {
        assert (a + b + c)[k] == b[k - |a|];
      } else {
        assert (a + b + c)[k] == c[k - |a| - |b|];
      }
    }
  }

  lemma FlattenAppend(cs: seq<seq<nat>>, x: seq<nat>)
    ensures Flatten(cs + [x]) == Flatten(cs) + x
  {
    assert (cs + [x])[..|cs|] == cs;
  }

  /** Every entry of the flattened clusters sits in some cluster. */
  lemma {:induction false} FlattenMemberIndex(cs: seq<seq<nat>>, v: nat)
    requires v in Flatten(cs)
    ensures exists c, k :: 0 <= c < |cs| && 0 <= k < |cs[c]| && cs[c][k] == v
  {
    var last := |cs| - 1;
    if v in cs[last] {
      var k :| 0 <= k < |cs[last]| && cs[last][k] == v;
    } else {
      FlattenMemberIndex(cs[..last], v);
      var c, k :| 0 <= c < |cs[..last]| && 0 <= k < |cs[..last][c]| && cs[..last][c][k] == v;
      assert cs[c][k] == v;
    }
  }

  /** Every member of cluster c is in the clusters up to c. */
  lemma {:induction false} MemberInFlatten(cs: seq<seq<nat>>, c: nat, k: nat)
    requires c < |cs| && k < |cs[c]|
    ensures cs[c][k] in Flatten(cs[..c + 1])
    ensures cs[c][k] in Flatten(cs)
  {
    assert cs[..c + 1][..c] == cs[..c];
    FlattenPrefix(cs, c + 1);
  }

  /** The clusters up to m come first in the flattened clusters. */
  lemma {:induction false} FlattenPrefix(cs: seq<seq<nat>>, m: nat)
    requires m <= |cs|
    ensures Flatten(cs[..m]) <= Flatten(cs)
    decreases |cs| - m
  {
    if m < |cs| {
      FlattenPrefix(cs, m + 1);
      assert cs[..m + 1][..m] == cs[..m];
    } else {
      assert cs[..m] == cs;
    }
  }

  /** Adding the cluster just explored from `node` keeps the outer loop's
      invariant, with `node + 1` as the next start. */
  lemma AppendCluster(adj: AdjacencyList, cs: seq<seq<nat>>, cluster: seq<nat>, node: nat)
    requires ClustersSoFar(adj, cs) && forall c :: 0 <= c < |cs| ==> cs[c][0] < node
    requires cluster != [] && cluster[0] == node
    requires NoDuplicates(Flatten(cs) + cluster) && AllBelow(cluster, |adj|)
    requires forall k :: 0 <= k < |cluster| ==> node <= cluster[k]
    requires NeighboursWithin(adj, cluster, Flatten(cs) + cluster)
    requires forall k :: 0 <= k < |cluster| ==> Reachable(adj, node, cluster[k])
    ensures ClustersSoFar(adj, cs + [cluster])
    ensures forall c :: 0 <= c < |cs + [cluster]| ==> (cs + [cluster])[c][0] < node + 1
    ensures Flatten(cs + [cluster]) == Flatten(cs) + cluster
  {
    FlattenAppend(cs, cluster);
    AllBelowConcat(Flatten(cs), cluster, [], |adj|);
    assert Flatten(cs) + cluster + [] == Flatten(cs) + cluster;
    AppendClusterOrder(adj, cs, cluster, node);
    AppendClusterNeighbours(adj, cs, cluster);
  }

  lemma AppendClusterOrder(adj: AdjacencyList, cs: seq<seq<nat>>, cluster: seq<nat>, node: nat)
    requires forall c :: 0 <= c < |cs| ==> cs[c] != [] && cs[c][0] < node
    requires StartsWithSmallest(cs) && OrderedByStart(cs) && ConnectedToStart(adj, cs)
    requires cluster != [] && cluster[0] == node
    requires forall k :: 0 <= k < |cluster| ==> node <= cluster[k]
    requires forall k :: 0 <= k < |cluster| ==> Reachable(adj, node, cluster[k])
    ensures forall c :: 0 <= c < |cs + [cluster]| ==> (cs + [cluster])[c] != [] && (cs + [cluster])[c][0] < node + 1
    ensures StartsWithSmallest(cs + [cluster]) && OrderedByStart(cs + [cluster])
    ensures ConnectedToStart(adj, cs + [cluster])
  {
    var cs' := cs + [cluster];
    assert forall c :: 0 <= c < |cs| ==> cs'[c] == cs[c];
    assert cs'[|cs|] == cluster;
  }

  lemma AppendClusterNeighbours(adj: AdjacencyList, cs: seq<seq<nat>>, cluster: seq<nat>)
    requires NeighboursInEarlierClusters(adj, cs)
    requires NeighboursWithin(adj, cluster, Flatten(cs) + cluster)
    ensures NeighboursInEarlierClusters(adj, cs + [cluster])
  {
    var cs' := cs + [cluster];
    FlattenAppend(cs, cluster);
    forall c | 0 <= c < |cs'| ensures NeighboursWithin(adj, cs'[c], Flatten(cs'[..c + 1])) {
      if c < |cs| {
        assert cs'[c] == cs[c];
        assert cs'[..c + 1] == cs[..c + 1];
      } else {
        assert cs'[c] == cluster;
        assert cs'[..c + 1] == cs';
      }
    }
  }

  /** Once every node is in some cluster, the clusters partition the nodes. */
  lemma FinishPartition(n: nat, cs: seq<seq<nat>>)
    requires NoDuplicates(Flatten(cs)) && AllBelow(Flatten(cs), n)
    requires forall c :: 0 <= c < |cs| ==> cs[c] != []
    requires forall v :: 0 <= v < n ==> v in Flatten(cs)
    ensures IsPartition(n, cs)
  {
    var flat := Flatten(cs);
    forall v | v in flat ensures 0 <= v < n {
      var k :| 0 <= k < |flat| && flat[k] == v;
    }
  }

  /** Once every node is in some cluster, every neighbour index is in range:
      the neighbours of each member were checked when it was popped. */
  lemma FinishInRange(adj: AdjacencyList, cs: seq<seq<nat>>)
    requires NeighboursInEarlierClusters(adj, cs)
    requires forall v :: 0 <= v < |adj| ==> v in Flatten(cs)
    ensures InRange(adj)
  {
    forall i, w | 0 <= i < |adj| && w in adj[i] ensures w < |adj| {
      FlattenMemberIndex(cs, i);
      var c, k :| 0 <= c < |cs| && 0 <= k < |cs[c]| && cs[c][k] == i;
      assert NeighboursWithin(adj, cs[c], Flatten(cs[..c + 1]));
    }
  }

  // ---------------------------------------------------------------------
  // What the clusters mean

  /** On an empty graph the search returns no clusters. */
  lemma EmptyGraphNoClusters(cs: seq<seq<nat>>)
    requires IsPartition(0, cs)
    ensures cs == []
  {
    if cs != [] {
      MemberInFlatten(cs, 0, 0);
    }
  }

  /** Cluster c follows the clusters before it in the flattened sequence. */
  lemma FlattenSplit(cs: seq<seq<nat>>, c: nat)
    requires c < |cs|
    ensures Flatten(cs[..c + 1]) == Flatten(cs[..c]) + cs[c]
  {
    assert cs[..c + 1][..c] == cs[..c];
  }

  /** Where member k of cluster c sits in the flattened clusters. */
  lemma FlattenPosition(cs: seq<seq<nat>>, c: nat, k: nat)
    requires c < |cs| && k < |cs[c]|
    ensures |Flatten(cs[..c])| + k < |Flatten(cs[..c + 1])| <= |Flatten(cs)|
    ensures Flatten(cs)[|Flatten(cs[..c])| + k] == cs[c][k]
  {
    FlattenSplit(cs, c);
    FlattenPrefix(cs, c + 1);
  }

  lemma FlattenLengthGrows(cs: seq<seq<nat>>, m: nat, m': nat)
    requires m <= m' <= |cs|
    ensures |Flatten(cs[..m])| <= |Flatten(cs[..m'])|
  {
    FlattenPrefix(cs[..m'], m);
    assert cs[..m'][..m] == cs[..m];
  }

  /** With no node repeated, a node occupies one place in one cluster. */
  lemma PlacedOnce(cs: seq<seq<nat>>, c1: nat, k1: nat, c2: nat, k2: nat)
    requires NoDuplicates(Flatten(cs))
    requires c1 < |cs| && k1 < |cs[c1]| && c2 < |cs| && k2 < |cs[c2]|
    requires cs[c1][k1] == cs[c2][k2]
    ensures c1 == c2 && k1 == k2
  {
    FlattenPosition(cs, c1, k1);
    FlattenPosition(cs, c2, k2);
    if c1 < c2 {
      FlattenLengthGrows(cs, c1 + 1, c2);
    } else if c2 < c1 {
      FlattenLengthGrows(cs, c2 + 1, c1);
    }
  }

  /** On a symmetric graph every neighbour of a member of a cluster is in the
      same cluster: its cluster cannot come earlier, since then the member
      would be a neighbour of that earlier cluster and so lie in it too. */
  lemma NeighbourInSameCluster(adj: AdjacencyList, cs: seq<seq<nat>>, c: nat, k: nat, w: nat)
    requires Symmetric(adj) && IsClustering(adj, cs)
    requires c < |cs| && k < |cs[c]| && cs[c][k] < |adj| && w in adj[cs[c][k]]
    ensures w in cs[c]
  {
    var v := cs[c][k];
    MemberInFlatten(cs, c, k);
    assert NeighboursWithin(adj, cs[c], Flatten(cs[..c + 1]));
    FlattenMemberIndex(cs[..c + 1], w);
    var c', k' :| 0 <= c' < |cs[..c + 1]| && 0 <= k' < |cs[..c + 1][c']| && cs[..c + 1][c'][k'] == w;
    assert cs[c'][k'] == w;
    assert v in adj[w];
    assert NeighboursWithin(adj, cs[c'], Flatten(cs[..c' + 1]));
    FlattenMemberIndex(cs[..c' + 1], v);
    var c'', k'' :| 0 <= c'' < |cs[..c' + 1]| && 0 <= k'' < |cs[..c' + 1][c'']| && cs[..c' + 1][c''][k''] == v;
    PlacedOnce(cs, c'', k'', c, k);
    assert cs[c][k'] == w;
  }

  /** On a symmetric graph no edge leaves a cluster. */
  lemma SymmetricClustersClosed(adj: AdjacencyList, cs: seq<seq<nat>>)
    requires Symmetric(adj) && IsClustering(adj, cs)
    ensures forall c :: 0 <= c < |cs| ==> NeighboursWithin(adj, cs[c], cs[c])
  {
    forall c, k, w | 0 <= c < |cs| && 0 <= k < |cs[c]| && cs[c][k] < |adj| && w in adj[cs[c][k]]
      ensures w < |adj| && w in cs[c]
    {
      NeighbourInSameCluster(adj, cs, c, k, w);
      assert NeighboursWithin(adj, cs[c], Flatten(cs[..c + 1]));
    }
  }

  /** There are never more clusters than nodes. */
  lemma FewerClustersThanNodes(adj: AdjacencyList, cs: seq<seq<nat>>)
    requires IsClustering(adj, cs)
    ensures |cs| <= |adj|
  {
    var heads := seq(|cs|, c requires 0 <= c < |cs| => cs[c][0]);
    forall c | 0 <= c < |cs| ensures heads[c] < |adj| {
      MemberInFlatten(cs, c, 0);
    }
    DistinctBelowBound(heads, |adj|);
  }

  /** A walk that starts in a cluster of a symmetric graph ends in it. */
  lemma {:induction false} PathStaysInCluster(adj: AdjacencyList, cs: seq<seq<nat>>, c: nat, p: seq<nat>)
    requires Symmetric(adj) && IsClustering(adj, cs) && c < |cs|
    requires IsPath(adj, p) && p[0] in cs[c]
    ensures p[|p| - 1] in cs[c]
  {
    if |p| > 1 {
      var q := p[..|p| - 1];
      assert forall k :: 0 <= k < |q| ==> q[k] == p[k];
      assert IsPath(adj, q);
      PathStaysInCluster(adj, cs, c, q);
      var k :| 0 <= k < |cs[c]| && cs[c][k] == p[|p| - 2];
      NeighbourInSameCluster(adj, cs, c, k, p[|p| - 1]);
    }
  }

  /** On a symmetric graph with every neighbour in range, walks reverse. */
  lemma ReachableReverse(adj: AdjacencyList, s: nat, t: nat)
    requires Symmetric(adj) && InRange(adj) && Reachable(adj, s, t)
    ensures Reachable(adj, t, s)
  {
    var p :| IsPath(adj, p) && p[0] == s && p[|p| - 1] == t;
    var q := seq(|p|, i requires 0 <= i < |p| => p[|p| - 1 - i]);
    forall k | 0 <= k < |q| - 1 ensures q[k] < |adj| && q[k + 1] in adj[q[k]] {
      var b := p[|p| - 2 - k];
      assert b < |adj| && q[k] in adj[b];
    }
    assert IsPath(adj, q);
  }

  /** Walks compose. */
  lemma ReachableTrans(adj: AdjacencyList, a: nat, b: nat, c: nat)
    requires Reachable(adj, a, b) && Reachable(adj, b, c)
    ensures Reachable(adj, a, c)
  {
    var p :| IsPath(adj, p) && p[0] == a && p[|p| - 1] == b;
    var q :| IsPath(adj, q) && q[0] == b && q[|q| - 1] == c;
    var r := p + q[1..];
    forall k | 0 <= k < |r| - 1 ensures r[k] < |adj| && r[k + 1] in adj[r[k]] {
      if k < |p| - 1 {
        assert r[k] == p[k] && r[k + 1] == p[k + 1];
      } else {
        assert r[k] == q[k - |p| + 1] && r[k + 1] == q[k - |p| + 2];
      }
    }
    assert IsPath(adj, r);
  }

  /** On a symmetric graph the clusters are its connected components: a node
      lies in the cluster of a member exactly when a walk leads from that
      member to it. */
  lemma ClustersAreComponents(adj: AdjacencyList, cs: seq<seq<nat>>, c: nat, k: nat, v: nat)
    requires Symmetric(adj) && IsClustering(adj, cs)
    requires c < |cs| && k < |cs[c]|
    ensures v in cs[c] <==> Reachable(adj, cs[c][k], v)
  {
    var u := cs[c][k];
    if v in cs[c] {
      var j :| 0 <= j < |cs[c]| && cs[c][j] == v;
      MemberInFlatten(cs, c, k);
      FinishInRange(adj, cs);
      ReachableReverse(adj, cs[c][0], u);
      ReachableTrans(adj, u, cs[c][0], v);
    }
    if Reachable(adj, u, v) {
      var p :| IsPath(adj, p) && p[0] == u && p[|p| - 1] == v;
      PathStaysInCluster(adj, cs, c, p);
    }
  }

  // ---------------------------------------------------------------------
  // The unit test's graph

  /** A set of nodes that no edge leaves keeps every walk that starts in it. */
  lemma {:induction false} WalkStaysIn(adj: AdjacencyList, region: set<nat>, p: seq<nat>)
    requires forall u, w :: u in region && u < |adj| && w in adj[u] ==> w in region
    requires IsPath(adj, p) && p[0] in region
    ensures p[|p| - 1] in region
  {
    if |p| > 1 {
      var q := p[..|p| - 1];
      assert forall k :: 0 <= k < |q| ==> q[k] == p[k];
      assert IsPath(adj, q);
      WalkStaysIn(adj, region, q);
    }
  }

  /** A cluster repeats no node. */
  lemma ClusterNoDuplicates(cs: seq<seq<nat>>, c: nat)
    requires NoDuplicates(Flatten(cs)) && c < |cs|
    ensures NoDuplicates(cs[c])
  {
    forall p, q | 0 <= p < q < |cs[c]| ensures cs[c][p] != cs[c][q] {
      if cs[c][p] == cs[c][q] {
        PlacedOnce(cs, c, p, c, q);
      }
    }
  }

  /** A cluster whose first member lies in cluster a or cluster b is one of
      the two. */
  lemma OneOfTwo(cs: seq<seq<nat>>, a: nat, b: nat, c: nat)
    requires NoDuplicates(Flatten(cs)) && a < |cs| && b < |cs| && c < |cs| && cs[c] != []
    requires cs[c][0] in cs[a] || cs[c][0] in cs[b]
    ensures c == a || c == b
  {
    if cs[c][0] in cs[a] {
      var j :| 0 <= j < |cs[a]| && cs[a][j] == cs[c][0];
      PlacedOnce(cs, c, 0, a, j);
    } else {
      var j :| 0 <= j < |cs[b]| && cs[b][j] == cs[c][0];
      PlacedOnce(cs, c, 0, b, j);
    }
  }

  /** When the graph has a node, the first cluster begins with node 0. */
  lemma FirstClusterStartsAtZero(n: nat, cs: seq<seq<nat>>)
    requires IsPartition(n, cs) && StartsWithSmallest(cs) && OrderedByStart(cs) && n > 0
    ensures cs != [] && cs[0][0] == 0
  {
    assert 0 in Flatten(cs);
    FlattenMemberIndex(cs, 0);
    var c0, k0 :| 0 <= c0 < |cs| && 0 <= k0 < |cs[c0]| && cs[c0][k0] == 0;
    assert cs[c0][0] == 0;
    assert cs[0][0] <= cs[c0][0];
  }

  /** A cluster of a symmetric graph holds exactly the nodes reachable from
      any one of its members. */
  lemma ClusterMembers(adj: AdjacencyList, cs: seq<seq<nat>>, c: nat, k: nat, region: set<nat>)
    requires Symmetric(adj) && IsClustering(adj, cs) && c < |cs| && k < |cs[c]|
    requires forall v :: Reachable(adj, cs[c][k], v) <==> v in region
    ensures forall v :: v in cs[c] <==> v in region
  {
    forall v ensures v in cs[c] <==> v in region {
      ClustersAreComponents(adj, cs, c, k, v);
    }
  }

  /** The graph of the unit test `test_find_connected_components`: nodes 0, 1 and 2
      in a path, node 3 alone. */
  const UnitTestGraph: AdjacencyList := [[1], [0, 2], [1], []]

  lemma UnitTestGraphSymmetric()
    ensures Symmetric(UnitTestGraph)
  {
    var adj := UnitTestGraph;
    forall i, j | 0 <= i < |adj| && 0 <= j < |adj| && j in adj[i] ensures i in adj[j] {
      assert i == 0 || i == 1 || i == 2;
    }
  }

  /** Walks from 0 reach 0, 1 and 2; walks from 3 reach only 3. */
  lemma UnitTestGraphReach(v: nat)
    ensures Reachable(UnitTestGraph, 0, v) <==> v in {0, 1, 2}
    ensures Reachable(UnitTestGraph, 3, v) <==> v == 3
  {
    var adj := UnitTestGraph;
    var first: set<nat> := {0, 1, 2};
    var lone: set<nat> := {3};
    assert forall u, w :: u in first && u < |adj| && w in adj[u] ==> w in first;
    assert forall u, w :: u in lone && u < |adj| && w in adj[u] ==> w in lone;
    assert IsPath(adj, [0]) && IsPath(adj, [0, 1]) && IsPath(adj, [0, 1, 2]) && IsPath(adj, [3]);
    if Reachable(adj, 0, v) {
      var p :| IsPath(adj, p) && p[0] == 0 && p[|p| - 1] == v;
      WalkStaysIn(adj, first, p);
    }
    if Reachable(adj, 3, v) {
      var p :| IsPath(adj, p) && p[0] == 3 && p[|p| - 1] == v;
      WalkStaysIn(adj, lone, p);
    }
  }

  lemma UnitTestGraphReachAll()
    ensures forall v :: Reachable(UnitTestGraph, 0, v) <==> v in {0, 1, 2}
    ensures forall v :: Reachable(UnitTestGraph, 3, v) <==> v in {3}
  {
    forall v ensures Reachable(UnitTestGraph, 0, v) <==> v in {0, 1, 2} {
      UnitTestGraphReach(v);
    }
    forall v ensures Reachable(UnitTestGraph, 3, v) <==> v in {3} {
      UnitTestGraphReach(v);
    }
  }

  /** The first cluster of the unit test's graph holds 0, 1 and 2. */
  lemma UnitTestFirstCluster(cs: seq<seq<nat>>)
    requires IsClustering(UnitTestGraph, cs)
    ensures cs != [] && forall v :: v in cs[0] <==> v in {0, 1, 2}
  {
    FirstClusterStartsAtZero(|UnitTestGraph|, cs);
    UnitTestGraphSymmetric();
    UnitTestGraphReachAll();
    ClusterMembers(UnitTestGraph, cs, 0, 0, {0, 1, 2});
  }

  /** Some cluster of the unit test's graph holds 3 alone. */
  lemma UnitTestLoneCluster(cs: seq<seq<nat>>) returns (c3: nat)
    requires IsClustering(UnitTestGraph, cs)
    ensures c3 < |cs| && forall v :: v in cs[c3] <==> v in {3}
  {
    UnitTestGraphSymmetric();
    UnitTestGraphReachAll();
    assert 3 in Flatten(cs);
    FlattenMemberIndex(cs, 3);
    var k3;
    c3, k3 :| 0 <= c3 < |cs| && 0 <= k3 < |cs[c3]| && cs[c3][k3] == 3;
    ClusterMembers(UnitTestGraph, cs, c3, k3, {3});
  }

  /** A partition of 0..3 whose first cluster holds 0, 1 and 2, and another
      holds 3, has just these two clusters. */
  lemma UnitTestTwoClusters(cs: seq<seq<nat>>, c3: nat)
    requires IsPartition(4, cs) && cs != [] && c3 < |cs|
    requires forall v :: v in cs[0] <==> v in {0, 1, 2}
    requires forall v :: v in cs[c3] <==> v in {3}
    ensures c3 == 1 && |cs| == 2
  {
    assert 3 in cs[c3] && 3 !in cs[0];
    MemberInFlatten(cs, 1, 0);
    MemberInFlatten(cs, |cs| - 1, 0);
    OneOfTwo(cs, 0, c3, 1);
    OneOfTwo(cs, 0, c3, |cs| - 1);
  }

  /** A list with no repeats has as many entries as it has members. */
  lemma {:induction false} DistinctSize(s: seq<nat>, members: set<nat>)
    requires NoDuplicates(s) && forall v :: v in s <==> v in members
    ensures |s| == |members|
  {
    if s == [] {
      assert forall v :: v in members ==> v in s;
      assert members == {};
    } else {
      var init := s[..|s| - 1];
      var last := s[|s| - 1];
      assert s == init + [last];
      assert NoDuplicates(init) by {
        forall p, q | 0 <= p < q < |init| ensures init[p] != init[q] {
          assert init[p] == s[p] && init[q] == s[q];
        }
      }
      assert last !in init by {
        forall k | 0 <= k < |init| ensures init[k] != last {
          assert init[k] == s[k];
        }
      }
      DistinctSize(init, members - {last});
    }
  }

  /** Every clustering of the unit test's graph has two clusters, of three
      nodes and of one. */
  lemma UnitTestGraphClusters(cs: seq<seq<nat>>)
    requires IsClustering(UnitTestGraph, cs)
    ensures |cs| == 2 && |cs[0]| == 3 && |cs[1]| == 1
  {
    UnitTestFirstCluster(cs);
    var c3 := UnitTestLoneCluster(cs);
    UnitTestTwoClusters(cs, c3);
    ClusterNoDuplicates(cs, 0);
    ClusterNoDuplicates(cs, 1);
    DistinctSize(cs[0], {0, 1, 2});
    DistinctSize(cs[1], {3});
  }
}
