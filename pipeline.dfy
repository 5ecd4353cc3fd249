/** The clustering step of the program's `main`: build the collaboration
    graph of the loaded records, then split it into connected components. */
module Pipeline {
  import opened Freelancers
  import opened Similarity
  import opened CollaborationGraph
  import opened Components

  /** Build the graph, then search it. The built graph has every neighbour
      index in range, so the search never panics, and it is symmetric, so
      the clusters are its connected components (see `ClusterIffChain`). */
  method ClusterFreelancers(fs: seq<Freelancer>) returns (adj: AdjacencyList, clusters: seq<seq<nat>>)
    ensures IsCollaborationGraph(fs, adj)
    ensures IsClustering(adj, clusters)
    ensures |clusters| <= |fs|
  {
    adj := BuildCollaborationGraph(fs);
    CollaborationGraphShape(fs, adj);
    var r := FindConnectedComponents(adj);
    clusters := r.clusters;
    FewerClustersThanNodes(adj, clusters);
  }

  /** A sequence of record indices, each linked to the next. */
  ghost predicate Chain(fs: seq<Freelancer>, p: seq<nat>)
  {
    |p| > 0 && forall k :: 0 <= k < |p| - 1 ==> IsEdge(fs, p[k], p[k + 1])
  }

  /** In the collaboration graph, walks are exactly chains of linked records. */
  lemma ChainIsPath(fs: seq<Freelancer>, adj: AdjacencyList, p: seq<nat>)
    requires IsCollaborationGraph(fs, adj)
    ensures Chain(fs, p) <==> IsPath(adj, p)
  {
    if Chain(fs, p) {
      forall k | 0 <= k < |p| - 1 ensures p[k] < |adj| && p[k + 1] in adj[p[k]] {
        assert IsEdge(fs, p[k], p[k + 1]);
      }
    }
    if IsPath(adj, p) {
      forall k | 0 <= k < |p| - 1 ensures IsEdge(fs, p[k], p[k + 1]) {
        assert p[k] < |adj| && p[k + 1] in adj[p[k]];
      }
    }
  }

  /** Two records are in one cluster exactly when a chain of linked records
      leads from one to the other. */
  lemma ClusterIffChain(fs: seq<Freelancer>, adj: AdjacencyList, cs: seq<seq<nat>>, c: nat, k: nat, j: nat)
    requires IsCollaborationGraph(fs, adj) && IsClustering(adj, cs)
    requires c < |cs| && k < |cs[c]|
    ensures j in cs[c] <==>
      exists p {:trigger Chain(fs, p)} :: Chain(fs, p) && p[0] == cs[c][k] && p[|p| - 1] == j
  {
    CollaborationGraphShape(fs, adj);
    ClustersAreComponents(adj, cs, c, k, j);
    if j in cs[c] {
      var p :| IsPath(adj, p) && p[0] == cs[c][k] && p[|p| - 1] == j;
      ChainIsPath(fs, adj, p);
    }
    if exists p {:trigger Chain(fs, p)} :: Chain(fs, p) && p[0] == cs[c][k] && p[|p| - 1] == j {
      var p :| Chain(fs, p) && p[0] == cs[c][k] && p[|p| - 1] == j;
      ChainIsPath(fs, adj, p);
    }
  }

  /** Two linked records always land in the same cluster. */
  lemma LinkedShareCluster(fs: seq<Freelancer>, adj: AdjacencyList, cs: seq<seq<nat>>, c: nat, i: nat, j: nat)
    requires IsCollaborationGraph(fs, adj) && IsClustering(adj, cs)
    requires c < |cs| && i in cs[c] && i < |fs| && j < |fs| && i != j && Linked(fs[i], fs[j])
    ensures j in cs[c]
  {
    CollaborationGraphShape(fs, adj);
    var k :| 0 <= k < |cs[c]| && cs[c][k] == i;
    MemberInFlatten(cs, c, k);
    NeighbourInSameCluster(adj, cs, c, k, j);
  }
}
