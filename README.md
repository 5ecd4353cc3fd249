# Freelancer clustering engine

This project models the clustering engine of the freelancer-analysis
program, `Final/part1/src/algorithms.rs`, and proves properties of the
model. The engine has three stages:

1. **Scoring.** `shared_attributes` scores two freelancer records by the
   categorical labels they share: job category, platform, client region and
   experience level.
2. **Building the graph.** `build_collaboration_graph` links every pair of
   records whose score is above 0.7. The result is an adjacency list.
3. **Finding clusters.** `find_connected_components` splits the nodes of
   the graph into clusters by breadth-first search.

The step of `main` that chains these stages is modelled as well.

Files:

- `freelancer.dfy`: module `Freelancers`, the record.
- `similarity.dfy`: module `Similarity`, the score.
  - The score is counted in integer hundredths. The weights are 30, 25, 25
    and 20, and two records are linked when their score exceeds 70.
  - The function is tied to an independent reference definition,
    `MatchedWeight`: the sum of the weights of the attributes whose labels
    match.
- `graph.dfy`: module `CollaborationGraph`, the graph builder.
  - It works in place on an array of neighbour lists, in the nested loops
    of `build_collaboration_graph`.
  - It is proved against `IsCollaborationGraph`: one strictly ascending
    list per record, with `j` in list `i` exactly when `i != j` and the two
    records are linked.
- `components.dfy`: module `Components`, the breadth-first search.
  - It keeps a `visited` array that it updates in place. The queue and the
    clusters are sequences.
  - `find_connected_components` indexes `visited` with each neighbour index, so a neighbour
    index out of range panics. That panic is the result `Panicked`, and it
    occurs exactly when some neighbour index is out of range.
  - Otherwise the result satisfies `IsClustering`:
    - the clusters partition the nodes;
    - each cluster begins with its smallest member;
    - clusters come in ascending order of their first members;
    - a member's neighbours never lie in a later cluster;
    - every member is reachable from its cluster's first member.
  - On a symmetric graph, each cluster is exactly one connected component.
- `pipeline.dfy`: module `Pipeline`, which builds the graph and then
  clusters it.
  - The built graph never makes the search panic.
  - Two records share a cluster exactly when a chain of linked records
    joins them.

## Model

| member | source | states |
|---|---|---|
| Similarity.SharedAttributes | Final/part1/src/algorithms.rs:62-69 | the score is the sum of the weights 30/25/25/20 over exactly the labels on which the two records agree (`MatchedWeight`), and never exceeds 100 |
| Similarity.MatchedWeightAdditive | Final/part1/src/algorithms.rs:63-67 | the score is additive: the weight matched over two lists of attributes is the sum of the weights matched over each |
| Similarity.SharedAttributesSymmetric | Final/part1/src/algorithms.rs:62-68 | the score and the edge condition do not depend on the order of the two records |
| Similarity.SharedAttributesIgnoresOtherFields | Final/part1/src/algorithms.rs:62-68 | records with the same four labels get the same score; id, earnings and hourly rate never matter |
| Similarity.SharedAttributesExtremes | Final/part1/src/algorithms.rs:62-68 | the score is 100 exactly when all four labels agree, and 0 exactly when none does |
| Similarity.LinkedCharacterization | Final/part1/src/algorithms.rs:48 | a pair is linked (score above 0.7) exactly when the job category matches and at least two of the other three labels do; the three smaller labels together reach only 0.7, which is not above it |
| Similarity.SameLabelsLinked | Final/part1/src/algorithms.rs:127-133 | records with identical labels are linked; records in different job categories are not |
| Similarity.JobAndPlatformOnlyExample | Final/part1/src/algorithms.rs:138-160 | the unit test's pair, matching on job category and platform only, scores 55 hundredths and is not linked |
| CollaborationGraph.BuildCollaborationGraph | Final/part1/src/algorithms.rs:42-55 | returns one list per record, each strictly ascending, with `j` in list `i` exactly when `i != j` and records `i` and `j` are linked |
| CollaborationGraph.CollaborationGraphShape | Final/part1/src/algorithms.rs:46-50 | the built graph is symmetric, has no self-loops, and every neighbour index names a record |
| CollaborationGraph.CollaborationGraphUnique | Final/part1/src/algorithms.rs:42-55 | the adjacency list is determined by the records alone: two graphs built from the same records are equal, list order included |
| CollaborationGraph.TestRecordsExample | Final/part1/src/algorithms.rs:123-134 | for the unit test's three records, 0 and 1 are linked both ways and 2 is linked to neither; the graph is exactly `[[1], [0], []]` |
| Components.ExploreCluster | Final/part1/src/algorithms.rs:16-31 | one search from an unvisited start node, when the nodes visited before are closed under edges (as the earlier clusters always are). It either reports a neighbour index out of range, with a witness, or returns a cluster that begins with the start node and holds exactly the nodes not visited before that are reachable from the start, each once. The visited marks become exactly the earlier nodes plus this cluster |
| Components.ScanNeighbours | Final/part1/src/algorithms.rs:23-28 | scanning the neighbours of the node just popped either reports a neighbour index out of range, with a witness, or appends to the queue exactly the neighbours that were unmarked, in list order and each once (`Unseen`), and marks exactly those. It keeps the search invariant: the marks are exactly the earlier clusters, the cluster and the queue, each node once and reachable from the start |
| Components.UnseenMembers | Final/part1/src/algorithms.rs:23-28 | one scan enqueues a node exactly when it is a neighbour that was unmarked, and never enqueues a node twice, even when the neighbour list repeats it |
| Components.ExploredReach | Final/part1/src/algorithms.rs:16-31 | when the earlier clusters are closed under edges, a finished search holds exactly the nodes outside them that are reachable from its start |
| Components.FindConnectedComponents | Final/part1/src/algorithms.rs:11-35 | panics (with a witness) exactly when some neighbour index is out of range. Otherwise the clusters partition the nodes; each begins with its smallest member; they come in ascending order of those members; neighbours of a member never lie in a later cluster; every member is reachable from its cluster's first member |
| Components.EmptyGraphNoClusters | Final/part1/src/algorithms.rs:12-34 | a graph with no nodes gives no clusters |
| Components.FirstClusterStartsAtZero | Final/part1/src/algorithms.rs:15-18 | when the graph has a node, the first cluster begins with node 0, the first start the outer loop tries |
| Components.FewerClustersThanNodes | Final/part1/src/algorithms.rs:15-31 | there are never more clusters than nodes |
| Components.NeighbourInSameCluster | Final/part1/src/algorithms.rs:22-29 | on a symmetric graph every neighbour of a member of a cluster lies in the same cluster |
| Components.SymmetricClustersClosed | Final/part1/src/algorithms.rs:22-29 | on a symmetric graph no edge leaves a cluster |
| Components.PathStaysInCluster | Final/part1/src/algorithms.rs:22-29 | on a symmetric graph a walk that starts in a cluster ends in it |
| Components.ClustersAreComponents | Final/part1/src/algorithms.rs:11-35 | on a symmetric graph a node lies in the cluster of a member exactly when a walk leads from that member to it: the clusters are the connected components |
| Components.UnitTestGraphClusters | Final/part1/src/algorithms.rs:107-119 | every clustering of the unit test's graph (0-1-2 in a path, 3 alone) has two clusters, of three nodes and of one |
| Pipeline.ClusterFreelancers | Final/part1/src/main.rs:23-27 | building the graph and then searching it never panics: the result is the collaboration graph of the records together with a clustering of it, with no more clusters than records |
| Pipeline.ChainIsPath | Final/part1/src/algorithms.rs:46-53 | in the collaboration graph, walks are exactly chains of records in which each is linked to the next |
| Pipeline.ClusterIffChain | Final/part1/src/main.rs:23-27 | two records are in one cluster exactly when a chain of linked records leads from one to the other |
| Pipeline.LinkedShareCluster | Final/part1/src/algorithms.rs:48-51 | two linked records always land in the same cluster |

## Left out

- The score is not modelled as `f32`. It is counted in integer hundredths instead.
  - In `f32`, the sum 0.25 + 0.25 + 0.2 equals `0.7f32` exactly, so that combination makes no edge.
  - The combinations above 0.7 are 0.75, 0.8 and 1.0, so the integer model links the same pairs as the `f32` code.
  - The model does not represent the floating-point values themselves.
- The record keeps `id`, `earnings_usd` and `hourly_rate` only as carried data: a `nat` and two `real`s. No part of the engine reads them.
- Loading records from the CSV file (`data_loader.rs`) is input/output and is left out. The model takes the records as an in-memory sequence.
- These are floating-point statistics, printing, chart rendering through an external library, or regression through external numeric libraries, and are left out:
  - `Final/part1/src/analysis.rs`;
  - `Final/part2/src/regression.rs`;
  - `Final/part2/src/error_analysis.rs`;
  - the `main` functions of `Final/part2` and `Final/part3`;
  - the notebook checkpoint copy of `main`.
- In `Final/part1/src/main.rs` only the two clustering calls are modelled. Loading, the analysis calls and printing are left out.
- Components.ExploreCluster: `find_connected_components` lists the members of a cluster after its first in breadth-first order. The contract states exactly which nodes a cluster holds, and that it begins with its start node, but it does not state that order in closed form. The order follows only from `ScanNeighbours`, whose contract fixes each step of the queue.
- Components.FindConnectedComponents: the order of the members within each cluster is not stated either. Which nodes each cluster holds, its first member and the order of the clusters are stated.
- Components.FindConnectedComponents: `find_connected_components` has no explicit range check. An out-of-range neighbour index makes Rust's bounds check on `visited[neighbor]` panic. The model returns `Panicked` naming the node and the index, and discards the clusters found so far, just as the panic does.
- Components.ScanNeighbours: the `VecDeque` queue and the growing `Vec`s are modelled as sequences, appended to and sliced.
- The separate method `ScanNeighbours` holds the inner `for` loop of `find_connected_components`, with the same behaviour.
- The graph builder follows the code, which checks every pair. Its cost (O(N²) pair comparisons) is not modelled.
