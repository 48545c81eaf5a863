/** Value-level view of the graph engine's storage.
    Nodes are the indices 0..n-1 of the insertion-ordered node list; adj[i]
    is node i's ordered neighbour list, held as indices (a node reference of
    the source becomes a stable index). Duplicate entries are allowed, since
    connecting the same pair twice appends a second entry. */
module Adjacency {

  /** No two positions of s hold the same element. */
  ghost predicate Distinct<T>(s: seq<T>) {
    forall a, b :: 0 <= a < b < |s| ==> s[a] != s[b]
  }

  /** Position of the first occurrence of x in s (the node a linear scan
      over the insertion-ordered node list stops at). */
  function IndexOf<T(==)>(s: seq<T>, x: T): (i: nat)
    requires x in s
    ensures i < |s| && s[i] == x && x !in s[..i]
  {
    if s[0] == x then 0
    else
      var j := IndexOf(s[1..], x);
      assert s[..j + 1] == [s[0]] + s[1..][..j];
      1 + j
  }

  /** With distinct elements, the first occurrence is the only one. */
  lemma IndexOfDistinct<T>(s: seq<T>, i: nat)
    requires Distinct(s) && i < |s|
    ensures IndexOf(s, s[i]) == i
  {
  }

  // ---------------------------------------------------------------------
  // Shape of the adjacency lists

  /** Every neighbour entry names an existing node. */
  ghost predicate WellFormed(adj: seq<seq<nat>>) {
    forall i, k :: 0 <= i < |adj| && 0 <= k < |adj[i]| ==> adj[i][k] < |adj|
  }

  /** No node lists itself as a neighbour. */
  ghost predicate NoSelfLoops(adj: seq<seq<nat>>) {
    forall i, k :: 0 <= i < |adj| && 0 <= k < |adj[i]| ==> adj[i][k] != i
  }

  /** j is a neighbour of i exactly when i is a neighbour of j. */
  ghost predicate Symmetric(adj: seq<seq<nat>>) {
    forall i, j :: 0 <= i < |adj| && 0 <= j < |adj| ==> (j in adj[i] <==> i in adj[j])
  }

  /** Total number of adjacency entries over all nodes. */
  function TotalDegree(adj: seq<seq<nat>>): nat {
    if adj == [] then 0 else TotalDegree(adj[..|adj| - 1]) + |adj[|adj| - 1]|
  }

  /** A new node starts with an empty neighbour list and adds no entry. */
  lemma TotalDegreeAddNode(adj: seq<seq<nat>>)
    ensures TotalDegree(adj + [[]]) == TotalDegree(adj)
  {
    assert (adj + [[]])[..|adj|] == adj;
  }

  /** Appending one neighbour to one list adds exactly one entry. */
  lemma {:induction false} TotalDegreeAppend(adj: seq<seq<nat>>, i: nat, j: nat)
    requires i < |adj|
    ensures TotalDegree(adj[i := adj[i] + [j]]) == TotalDegree(adj) + 1
  {
    var adj' := adj[i := adj[i] + [j]];
    var n := |adj|;
    if i == n - 1 {
      assert adj'[..n - 1] == adj[..n - 1];
    } else {
      TotalDegreeAppend(adj[..n - 1], i, j);
      assert adj'[..n - 1] == adj[..n - 1][i := adj[..n - 1][i] + [j]];
    }
  }

  /** The neighbour lists after connecting s to d: d is appended to s's list
      and, only when the graph is undirected, s is appended to d's list. */
  function Linked(adj: seq<seq<nat>>, s: nat, d: nat, directed: bool): seq<seq<nat>>
    requires s < |adj| && d < |adj|
  {
    var a := adj[s := adj[s] + [d]];
    if directed then a else a[d := a[d] + [s]]
  }

  /** Connecting adds one entry to a directed graph and two to an undirected one. */
  lemma LinkedDegree(adj: seq<seq<nat>>, s: nat, d: nat, directed: bool)
    requires s < |adj| && d < |adj|
    ensures TotalDegree(Linked(adj, s, d, directed)) == TotalDegree(adj) + (if directed then 1 else 2)
  {
    var a := adj[s := adj[s] + [d]];
    TotalDegreeAppend(adj, s, d);
    if !directed {
      TotalDegreeAppend(a, d, s);
    }
  }

  /** Connecting s to d changes only the two endpoint lists: d is appended
      to s's list, s to d's list only when undirected, and no entry is
      deduplicated. */
  lemma LinkedEffect(adj: seq<seq<nat>>, s: nat, d: nat, directed: bool)
    requires s < |adj| && d < |adj| && s != d
    ensures |Linked(adj, s, d, directed)| == |adj|
    ensures Linked(adj, s, d, directed)[s] == adj[s] + [d]
    ensures Linked(adj, s, d, directed)[d] == if directed then adj[d] else adj[d] + [s]
    ensures forall i :: 0 <= i < |adj| && i != s && i != d ==> Linked(adj, s, d, directed)[i] == adj[i]
  {
  }

  /** Connecting two distinct existing nodes keeps the lists well formed and
      free of self-loops, makes d a neighbour of s (and, undirected, s a
      neighbour of d), and keeps an undirected graph symmetric. */
  lemma LinkedInvariants(adj: seq<seq<nat>>, s: nat, d: nat, directed: bool)
    requires s < |adj| && d < |adj| && s != d
    requires WellFormed(adj) && NoSelfLoops(adj)
    requires !directed ==> Symmetric(adj)
    ensures |Linked(adj, s, d, directed)| == |adj|
    ensures WellFormed(Linked(adj, s, d, directed))
    ensures NoSelfLoops(Linked(adj, s, d, directed))
    ensures d in Linked(adj, s, d, directed)[s]
    ensures !directed ==> s in Linked(adj, s, d, directed)[d]
    ensures !directed ==> Symmetric(Linked(adj, s, d, directed))
  {
    var a := Linked(adj, s, d, directed);
    assert a[s][|a[s]| - 1] == d;
    if !directed {
      assert a[d][|a[d]| - 1] == s;
      forall i, j | 0 <= i < |a| && 0 <= j < |a|
        ensures j in a[i] <==> i in a[j]
      {
        assert j in a[i] <==> j in adj[i] || (i == s && j == d) || (i == d && j == s);
        assert i in a[j] <==> i in adj[j] || (j == s && i == d) || (j == d && i == s);
      }
    }
  }

  // ---------------------------------------------------------------------
  // Paths and reachability

  /** p is a non-empty walk along adjacency entries. */
  ghost predicate IsPath(adj: seq<seq<nat>>, p: seq<nat>) {
    && |p| > 0
    && (forall k :: 0 <= k < |p| ==> p[k] < |adj|)
    && (forall k :: 0 <= k < |p| - 1 ==> p[k + 1] in adj[p[k]])
  }

  /** A path that repeats no node. */
  ghost predicate IsSimplePath(adj: seq<seq<nat>>, p: seq<nat>) {
    IsPath(adj, p) && Distinct(p)
  }

  ghost predicate Reachable(adj: seq<seq<nat>>, a: nat, b: nat) {
    exists p :: IsPath(adj, p) && p[0] == a && p[|p| - 1] == b
  }

  lemma ReachableSelf(adj: seq<seq<nat>>, a: nat)
    requires a < |adj|
    ensures Reachable(adj, a, a)
  {
    assert IsPath(adj, [a]);
  }

  /** Following one more adjacency entry stays reachable. */
  lemma ReachableStep(adj: seq<seq<nat>>, a: nat, b: nat, c: nat)
    requires WellFormed(adj) && b < |adj| && c in adj[b]
    requires Reachable(adj, a, b)
    ensures Reachable(adj, a, c)
  {
    var p :| IsPath(adj, p) && p[0] == a && p[|p| - 1] == b;
    var p' := p + [c];
    assert p'[|p|] == c;
    assert IsPath(adj, p');
  }

  /** A node reachable from a neighbour of a is reachable from a. */
  lemma ReachablePrepend(adj: seq<seq<nat>>, a: nat, b: nat, c: nat)
    requires a < |adj| && b in adj[a]
    requires Reachable(adj, b, c)
    ensures Reachable(adj, a, c)
  {
    var p :| IsPath(adj, p) && p[0] == b && p[|p| - 1] == c;
    var p' := [a] + p;
    assert p'[1..] == p;
    assert IsPath(adj, p');
  }

  /** Every neighbour of a marked node is marked. */
  ghost predicate Closed(adj: seq<seq<nat>>, marked: seq<bool>) {
    && |marked| == |adj|
    && forall i, k :: 0 <= i < |adj| && 0 <= k < |adj[i]| && marked[i] ==> adj[i][k] < |adj| && marked[adj[i][k]]
  }

  /** A closed marking that contains the start of a path contains its end. */
  lemma {:induction false} ClosedContainsPath(adj: seq<seq<nat>>, marked: seq<bool>, p: seq<nat>)
    requires Closed(adj, marked) && IsPath(adj, p) && marked[p[0]]
    ensures marked[p[|p| - 1]]
  {
    if |p| > 1 {
      var q := p[1..];
      assert p[1] in adj[p[0]];
      assert IsPath(adj, q);
      ClosedContainsPath(adj, marked, q);
    }
  }

  /** A closed marking that contains a contains every node reachable from a. */
  lemma ClosedContainsReachable(adj: seq<seq<nat>>, marked: seq<bool>, a: nat, b: nat)
    requires Closed(adj, marked) && a < |adj| && marked[a] && Reachable(adj, a, b)
    ensures b < |adj| && marked[b]
  {
    var p :| IsPath(adj, p) && p[0] == a && p[|p| - 1] == b;
    ClosedContainsPath(adj, marked, p);
  }

  /** Position k of s was discovered along an edge from an earlier position
      at or after lo. */
  ghost predicate HasParent(adj: seq<seq<nat>>, s: seq<nat>, lo: nat, k: nat)
    requires k < |s|
  {
    exists j :: lo <= j < k && s[j] < |adj| && s[k] in adj[s[j]]
  }

  lemma HasParentExtend(adj: seq<seq<nat>>, s: seq<nat>, t: seq<nat>, lo: nat, lo': nat, k: nat)
    requires k < |s| <= |t| && t[..|s|] == s && lo' <= lo
    requires HasParent(adj, s, lo, k)
    ensures HasParent(adj, t, lo', k)
  {
    var j :| lo <= j < k && s[j] < |adj| && s[k] in adj[s[j]];
    assert t[j] == s[j] && t[k] == s[k];
  }

  // ---------------------------------------------------------------------
  // Visitation flags

  /** Number of unmarked nodes; every traversal step marks one more. */
  function CountFalse(s: seq<bool>): nat {
    if s == [] then 0 else (if s[0] then 0 else 1) + CountFalse(s[1..])
  }

  /** Marking an unmarked node lowers the count by one. */
  lemma {:induction false} CountFalseMark(s: seq<bool>, i: nat)
    requires i < |s| && !s[i]
    ensures CountFalse(s[i := true]) == CountFalse(s) - 1
  {
    if i == 0 {
      assert s[i := true][1..] == s[1..];
    } else {
      CountFalseMark(s[1..], i - 1);
      assert s[i := true][1..] == s[1..][i - 1 := true];
    }
  }

  /** With nothing marked, every node counts. */
  lemma {:induction false} CountFalseNone(s: seq<bool>)
    requires forall i :: 0 <= i < |s| ==> !s[i]
    ensures CountFalse(s) == |s|
  {
    if s != [] {
      CountFalseNone(s[1..]);
    }
  }

  /** With every node marked, none counts. */
  lemma {:induction false} CountFalseAll(s: seq<bool>)
    requires forall i :: 0 <= i < |s| ==> s[i]
    ensures CountFalse(s) == 0
  {
    if s != [] {
      CountFalseAll(s[1..]);
    }
  }

  // ---------------------------------------------------------------------
  // Labels

  function LabelsOf(labels: seq<string>, p: seq<nat>): seq<string>
    requires forall k :: 0 <= k < |p| ==> p[k] < |labels|
  {
    seq(|p|, k requires 0 <= k < |p| => labels[p[k]])
  }

  /** Distinct nodes with distinct labels give distinct label sequences. */
  lemma LabelsOfDistinct(labels: seq<string>, q: seq<nat>)
    requires forall k :: 0 <= k < |q| ==> q[k] < |labels|
    requires Distinct(labels) && Distinct(q)
    ensures Distinct(LabelsOf(labels, q))
  {
  }

  /** The node labelled a has a neighbour labelled b. */
  ghost predicate LabelAdjacent(labels: seq<string>, adj: seq<seq<nat>>, a: string, b: string) {
    exists i, j :: 0 <= i < |labels| && i < |adj| && 0 <= j < |labels| && labels[i] == a && labels[j] == b && j in adj[i]
  }

  /** p is a non-empty sequence of existing labels, each adjacent to the next. */
  ghost predicate IsLabelPath(labels: seq<string>, adj: seq<seq<nat>>, p: seq<string>) {
    && |p| > 0
    && p[0] in labels
    && forall k :: 0 <= k < |p| - 1 ==> LabelAdjacent(labels, adj, p[k], p[k + 1])
  }

  /** A simple path of labels from a to b. */
  ghost predicate IsSimpleLabelPath(labels: seq<string>, adj: seq<seq<nat>>, p: seq<string>, a: string, b: string) {
    IsLabelPath(labels, adj, p) && Distinct(p) && p[0] == a && p[|p| - 1] == b
  }

  /** In a symmetric graph adjacency of labels is symmetric too. */
  lemma LabelAdjacentSymmetric(labels: seq<string>, adj: seq<seq<nat>>, a: string, b: string)
    requires |adj| == |labels| && Symmetric(adj)
    ensures LabelAdjacent(labels, adj, a, b) <==> LabelAdjacent(labels, adj, b, a)
  {
    if LabelAdjacent(labels, adj, a, b) {
      var i, j :| 0 <= i < |labels| && i < |adj| && 0 <= j < |labels| && labels[i] == a && labels[j] == b && j in adj[i];
      assert i in adj[j];
    }
    if LabelAdjacent(labels, adj, b, a) {
      var i, j :| 0 <= i < |labels| && i < |adj| && 0 <= j < |labels| && labels[i] == b && labels[j] == a && j in adj[i];
      assert i in adj[j];
    }
  }

  /** The labels along a (simple) path of nodes form a (simple) label path. */
  lemma LabelsOfPath(labels: seq<string>, adj: seq<seq<nat>>, q: seq<nat>)
    requires |adj| == |labels| && IsPath(adj, q)
    ensures IsLabelPath(labels, adj, LabelsOf(labels, q))
    ensures Distinct(labels) && Distinct(q) ==> Distinct(LabelsOf(labels, q))
  {
    var p := LabelsOf(labels, q);
    forall k | 0 <= k < |p| - 1
      ensures LabelAdjacent(labels, adj, p[k], p[k + 1])
    {
      assert q[k + 1] in adj[q[k]];
    }
  }

  /** The nodes a label path runs through, found by label. */
  function NodesOf(labels: seq<string>, p: seq<string>): (q: seq<nat>)
    requires forall k :: 0 <= k < |p| ==> p[k] in labels
    ensures |q| == |p|
    ensures forall k :: 0 <= k < |q| ==> q[k] < |labels| && labels[q[k]] == p[k]
  {
    seq(|p|, k requires 0 <= k < |p| => IndexOf(labels, p[k]))
  }

  /** With distinct labels, a simple label path is the label sequence of a
      simple node path. */
  lemma PathOfLabels(labels: seq<string>, adj: seq<seq<nat>>, p: seq<string>)
    requires |adj| == |labels| && Distinct(labels)
    requires IsLabelPath(labels, adj, p)
    ensures forall k :: 0 <= k < |p| ==> p[k] in labels
    ensures IsPath(adj, NodesOf(labels, p))
    ensures LabelsOf(labels, NodesOf(labels, p)) == p
    ensures Distinct(p) ==> Distinct(NodesOf(labels, p))
  {
    forall k | 0 <= k < |p|
      ensures p[k] in labels
    {
      if k > 0 {
        assert LabelAdjacent(labels, adj, p[k - 1], p[k]);
      }
    }
    var q := NodesOf(labels, p);
    forall k | 0 <= k < |q| - 1
      ensures q[k + 1] in adj[q[k]]
    {
      assert LabelAdjacent(labels, adj, p[k], p[k + 1]);
      var i, j :| 0 <= i < |labels| && i < |adj| && 0 <= j < |labels| && labels[i] == p[k] && labels[j] == p[k + 1] && j in adj[i];
      IndexOfDistinct(labels, i);
      IndexOfDistinct(labels, j);
    }
  }
}
