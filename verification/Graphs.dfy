/** Finite directed graphs: walks, cycles, and the ranks that exist when there are none. */
module Graphs {

  type Edges<T(==)> = set<(T, T)>

  ghost predicate IsWalk<T>(edges: Edges<T>, p: seq<T>) {
    |p| > 0 && forall i | 0 <= i < |p| - 1 :: (p[i], p[i + 1]) in edges
  }

  ghost predicate IsCycle<T>(edges: Edges<T>, p: seq<T>) {
    |p| > 1 && IsWalk(edges, p) && p[0] == p[|p| - 1]
  }

  ghost predicate Acyclic<T(!new)>(edges: Edges<T>) {
    forall p :: !IsCycle(edges, p)
  }

  ghost predicate HasSuccessor<T>(edges: Edges<T>, nodes: set<T>, u: T) {
    exists v :: v in nodes && (u, v) in edges
  }

  ghost predicate Ranks<T(!new)>(edges: Edges<T>, rank: map<T, nat>) {
    forall u, v | (u, v) in edges :: u in rank && v in rank && rank[v] < rank[u]
  }

  lemma {:induction false} Pigeonhole<T>(p: seq<T>, nodes: set<T>)
    requires forall x | x in p :: x in nodes
    requires |p| > |nodes|
    ensures exists i, j :: 0 <= i < j < |p| && p[i] == p[j]
    decreases |p|
  {
    var n := |p| - 1;
    if i :| 0 <= i < n && p[i] == p[n] {
    } else {
      forall x | x in p[..n] ensures x in nodes - {p[n]} {
        var i :| 0 <= i < n && p[..n][i] == x;
        assert p[i] == x;
      }
      assert |nodes - {p[n]}| == |nodes| - 1;
      Pigeonhole(p[..n], nodes - {p[n]});
      var i, j :| 0 <= i < j < n && p[..n][i] == p[..n][j];
      assert p[i] == p[j];
    }
  }

  /** Every node of `nodes` has a successor there: walks inside it of any length. */
  lemma {:induction false} LongWalk<T(!new)>(edges: Edges<T>, nodes: set<T>, start: T, n: nat) returns (p: seq<T>)
    requires start in nodes && forall u | u in nodes :: HasSuccessor(edges, nodes, u)
    ensures |p| == n + 1 && p[0] == start && IsWalk(edges, p) && forall x | x in p :: x in nodes
  {
    if n == 0 {
      p := [start];
    } else {
      var q := LongWalk(edges, nodes, start, n - 1);
      assert q[n - 1] in q && HasSuccessor(edges, nodes, q[n - 1]);
      var v :| v in nodes && (q[n - 1], v) in edges;
      p := q + [v];
    }
  }

  /** A nonempty set whose nodes all have successors in it holds a cycle, and every node of it leads to one. */
  lemma SuccessorsCycle<T(!new)>(edges: Edges<T>, nodes: set<T>, start: T) returns (p: seq<T>, c: seq<T>)
    requires start in nodes && forall u | u in nodes :: HasSuccessor(edges, nodes, u)
    ensures IsWalk(edges, p) && p[0] == start && IsCycle(edges, c) && c[0] == p[|p| - 1]
    ensures forall x | x in c :: x in nodes
  {
    var w := LongWalk(edges, nodes, start, |nodes|);
    Pigeonhole(w, nodes);
    var i, j :| 0 <= i < j < |w| && w[i] == w[j];
    p := w[..i + 1];
    c := w[i..j + 1];
  }

  lemma {:induction false} RankFalls<T(!new)>(edges: Edges<T>, rank: map<T, nat>, p: seq<T>, i: nat)
    requires Ranks(edges, rank) && IsWalk(edges, p) && 0 < i < |p|
    ensures p[0] in rank && p[i] in rank && rank[p[i]] < rank[p[0]]
  {
    assert (p[i - 1], p[i]) in edges;
    if i > 1 {
      RankFalls(edges, rank, p, i - 1);
    }
  }

  /** A rank rules out cycles. */
  lemma RanksAcyclic<T(!new)>(edges: Edges<T>, rank: map<T, nat>)
    requires Ranks(edges, rank)
    ensures Acyclic(edges)
  {
    forall p ensures !IsCycle(edges, p) {
      if IsCycle(edges, p) {
        RankFalls(edges, rank, p, |p| - 1);
      }
    }
  }

  /** Without cycles there is a rank: peel off a node without successors, again and again. */
  lemma {:induction false} AcyclicRanks<T(!new)>(edges: Edges<T>, nodes: set<T>) returns (rank: map<T, nat>)
    requires Acyclic(edges)
    ensures rank.Keys == nodes
    ensures forall u, v | (u, v) in edges && u in nodes && v in nodes :: rank[v] < rank[u]
    decreases nodes
  {
    if nodes == {} {
      rank := map[];
    } else if u :| u in nodes && !HasSuccessor(edges, nodes, u) {
      var r := AcyclicRanks(edges, nodes - {u});
      rank := map x | x in nodes :: if x == u then 0 else r[x] + 1;
    } else {
      var start :| start in nodes;
      var p, c := SuccessorsCycle(edges, nodes, start);
      assert false;
    }
  }
}
