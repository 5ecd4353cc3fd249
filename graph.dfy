/** `build_collaboration_graph`: an undirected graph over record indices as an
    adjacency list, with an edge between i and j whenever the two records'
    score exceeds the threshold. */
module CollaborationGraph {
  import opened Freelancers
  import opened Similarity

  /** List i holds the neighbours of node i. */
  type AdjacencyList = seq<seq<nat>>

  predicate StrictlyAscending(s: seq<nat>)
  {
    forall p, q :: 0 <= p < q < |s| ==> s[p] < s[q]
  }

  /** Every neighbour index names a node of the graph. */
  predicate InRange(adj: AdjacencyList)
  {
    forall i, w :: 0 <= i < |adj| && w in adj[i] ==> w < |adj|
  }

  /** j is a neighbour of i exactly when i is a neighbour of j. */
  predicate Symmetric(adj: AdjacencyList)
  {
    forall i, j {:trigger j in adj[i]} :: 0 <= i < |adj| && 0 <= j < |adj| && j in adj[i] ==> i in adj[j]
  }

  predicate NoSelfLoops(adj: AdjacencyList)
  {
    forall i :: 0 <= i < |adj| ==> i !in adj[i]
  }

  /** Records i and j are distinct records of `fs` whose score is above the
      threshold. */
  ghost predicate IsEdge(fs: seq<Freelancer>, i: int, j: int)
  {
    0 <= i < |fs| && 0 <= j < |fs| && i != j && Linked(fs[i], fs[j])
  }

  /** What the builder produces for `fs`: one list per record, each in strictly
      ascending order and holding exactly the other records linked to it. */
  ghost predicate IsCollaborationGraph(fs: seq<Freelancer>, adj: AdjacencyList)
  {
    |adj| == |fs| &&
    (forall i :: 0 <= i < |adj| ==> StrictlyAscending(adj[i])) &&
    (forall i, j :: 0 <= i < |adj| ==> (j in adj[i] <==> IsEdge(fs, i, j)))
  }

  /** Whether the unordered pair {p, q} has been examined once the loops are at
      outer index i and inner index j: pairs are taken smaller index first, in
      lexicographic order. */
  ghost predicate PairDone(p: int, q: int, i: int, j: int)
  {
    var lo := if p < q then p else q;
    var hi := if p < q then q else p;
    lo < i || (lo == i && hi < j)
  }

  /** The lists once the pairs before (i, j) are examined. */
  ghost predicate BuiltSoFar(fs: seq<Freelancer>, lists: seq<seq<nat>>, i: nat, j: nat)
  {
    |lists| == |fs| &&
    (forall k :: 0 <= k < |lists| ==> StrictlyAscending(lists[k])) &&
    (forall k, m :: 0 <= k < |lists| ==>
       (m in lists[k] <==> IsEdge(fs, k, m) && PairDone(k, m, i, j)))
  }

  /** Examining pair (i, j) extends list i by j and list j by i when they are
      linked, and keeps both lists ascending. */
  lemma ExamineStep(fs: seq<Freelancer>, lists: seq<seq<nat>>, i: nat, j: nat)
    requires BuiltSoFar(fs, lists, i, j)
    requires i < j < |fs|
    ensures Linked(fs[i], fs[j]) ==>
      BuiltSoFar(fs, lists[i := lists[i] + [j]][j := lists[j] + [i]], i, j + 1)
    ensures !Linked(fs[i], fs[j]) ==> BuiltSoFar(fs, lists, i, j + 1)
  {
    SharedAttributesSymmetric(fs[i], fs[j]);
    if Linked(fs[i], fs[j]) {
      var after := lists[i := lists[i] + [j]][j := lists[j] + [i]];
      forall k, m | 0 <= k < |after|
        ensures m in after[k] <==> IsEdge(fs, k, m) && PairDone(k, m, i, j + 1)
      {
        if k == i {
          assert after[k] == lists[i] + [j];
        } else if k == j {
          assert after[k] == lists[j] + [i];
        } else {
          assert after[k] == lists[k];
        }
      }
      forall x | x in lists[i] ensures x < j {}
      forall x | x in lists[j] ensures x < i {}
      forall k | 0 <= k < |after| ensures StrictlyAscending(after[k]) {
        if k == i || k == j {
          var s := if k == i then lists[i] else lists[j];
          var x := if k == i then j else i;
          assert after[k] == s + [x];
          forall p, q | 0 <= p < q < |s + [x]| ensures (s + [x])[p] < (s + [x])[q] {
            if q == |s| { assert s[p] in s; }
          }
        } else {
          assert after[k] == lists[k];
        }
      }
    }
  }

  /** Finishing outer index i leaves the same lists as starting index i + 1. */
  lemma NextRow(fs: seq<Freelancer>, lists: seq<seq<nat>>, i: nat)
    requires i < |fs| && BuiltSoFar(fs, lists, i, |fs|)
    ensures BuiltSoFar(fs, lists, i + 1, i + 1)
  {
    forall k, m | 0 <= k < |lists|
      ensures m in lists[k] <==> IsEdge(fs, k, m) && PairDone(k, m, i + 1, i + 1)
    {
      if IsEdge(fs, k, m) {
        assert PairDone(k, m, i, |fs|) <==> PairDone(k, m, i + 1, i + 1);
      }
    }
  }

  /** `build_collaboration_graph`: examine every pair i < j in ascending order
      and append j to list i and i to list j when the pair is linked. */
  method BuildCollaborationGraph(fs: seq<Freelancer>) returns (adj: AdjacencyList)
    ensures |adj| == |fs|
    ensures forall i :: 0 <= i < |adj| ==> StrictlyAscending(adj[i])
    ensures forall i, j :: 0 <= i < |adj| ==> (j in adj[i] <==> IsEdge(fs, i, j))
  {
    var n := |fs|;
    var lists := new seq<nat>[n](_ => []);
    for i := 0 to n
      invariant BuiltSoFar(fs, lists[..], i, i)
    {
      for j := i + 1 to n
        invariant BuiltSoFar(fs, lists[..], i, j)
      {
        ExamineStep(fs, lists[..], i, j);
        if SharedAttributes(fs[i], fs[j]) > LinkThreshold {
          lists[i] := lists[i] + [j];
          lists[j] := lists[j] + [i];
        }
      }
      NextRow(fs, lists[..], i);
    }
    adj := lists[..];
    assert BuiltSoFar(fs, adj, n, n);
  }

  /** The graph is undirected, free of self-loops and names only its own nodes. */
  lemma CollaborationGraphShape(fs: seq<Freelancer>, adj: AdjacencyList)
    requires IsCollaborationGraph(fs, adj)
    ensures Symmetric(adj) && NoSelfLoops(adj) && InRange(adj)
  {
    forall i, j | 0 <= i < |adj| && 0 <= j < |adj| && j in adj[i]
      ensures i in adj[j]
    {
      SharedAttributesSymmetric(fs[i], fs[j]);
    }
  }

  lemma TailMember(s: seq<nat>, t: seq<nat>, x: nat)
    requires StrictlyAscending(s) && StrictlyAscending(t)
    requires s != [] && t != [] && s[0] == t[0]
    requires forall y :: y in s ==> y in t
    requires x in s[1..]
    ensures x in t[1..]
  {
    var k :| 0 <= k < |s[1..]| && s[1..][k] == x;
    assert s[k + 1] == x && x in s;
    var m :| 0 <= m < |t| && t[m] == x;
    assert m != 0;
    assert t[1..][m - 1] == x;
  }

  /** Two strictly ascending lists with the same members are the same list. */
  lemma {:induction false} AscendingUnique(s: seq<nat>, t: seq<nat>)
    requires StrictlyAscending(s) && StrictlyAscending(t)
    requires forall x :: x in s <==> x in t
    ensures s == t
  {
    assert s != [] ==> s[0] in t;
    assert t != [] ==> t[0] in s;
    if s != [] {
      assert s[0] == t[0] by {
        assert s[0] in t && t[0] in s;
      }
      forall x: nat ensures x in s[1..] ==> x in t[1..] {
        if x in s[1..] { TailMember(s, t, x); }
      }
      forall x: nat ensures x in t[1..] ==> x in s[1..] {
        if x in t[1..] { TailMember(t, s, x); }
      }
      AscendingUnique(s[1..], t[1..]);
      assert s == [s[0]] + s[1..] && t == [t[0]] + t[1..];
    }
  }

  /** The adjacency list is fully determined by the records: rebuilding the
      graph from the same records gives the same lists in the same order. */
  lemma CollaborationGraphUnique(fs: seq<Freelancer>, adj1: AdjacencyList, adj2: AdjacencyList)
    requires IsCollaborationGraph(fs, adj1) && IsCollaborationGraph(fs, adj2)
    ensures adj1 == adj2
  {
    forall i | 0 <= i < |adj1| ensures adj1[i] == adj2[i] {
      AscendingUnique(adj1[i], adj2[i]);
    }
  }

  /** The unit test's three records: the first two are identical and linked
      both ways; the third shares nothing with them and is linked to neither. */
  lemma TestRecordsExample(adj: AdjacencyList)
    requires
      IsCollaborationGraph([
        Freelancer(1, "Web Development", "Upwork", "USA", "Expert", 0.0, 0.0),
        Freelancer(2, "Web Development", "Upwork", "USA", "Expert", 0.0, 0.0),
        Freelancer(3, "Design", "Fiverr", "Europe", "Beginner", 0.0, 0.0)], adj)
    ensures 1 in adj[0] && 0 in adj[1]
    ensures 2 !in adj[0] && 2 !in adj[1]
    ensures adj == [[1], [0], []]
  {
    var fs := [
        Freelancer(1, "Web Development", "Upwork", "USA", "Expert", 0.0, 0.0),
        Freelancer(2, "Web Development", "Upwork", "USA", "Expert", 0.0, 0.0),
        Freelancer(3, "Design", "Fiverr", "Europe", "Beginner", 0.0, 0.0)];
    assert Linked(fs[0], fs[1]);
    assert !Linked(fs[0], fs[2]) && !Linked(fs[1], fs[2]);
    AscendingUnique(adj[0], [1]);
    AscendingUnique(adj[1], [0]);
    AscendingUnique(adj[2], []);
  }
}
