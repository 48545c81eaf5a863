/** The bookkeeping shared by the three traversals, stated over values:
    the visitation flags, the nodes visited so far (in visiting order) and
    the labels recorded for them. Each lemma here is one step of a
    traversal loop, so that the methods of the graph only chain them. */
module Traversal {
  import opened Adjacency

  /** order lists exactly the flagged nodes, each once, and r holds their
      labels in the same order. */
  ghost predicate Tracks(labels: seq<string>, visited: seq<bool>, order: seq<nat>, r: seq<string>) {
    && |visited| == |labels|
    && (forall k :: 0 <= k < |order| ==> order[k] < |labels|)
    && Distinct(order)
    && (forall i :: 0 <= i < |labels| ==> (visited[i] <==> i in order))
    && CountFalse(visited) + |order| == |labels|
    && r == LabelsOf(labels, order)
  }

  /** With nothing flagged, nothing has been visited. */
  lemma TracksStart(labels: seq<string>, visited: seq<bool>)
    requires |visited| == |labels|
    requires forall i :: 0 <= i < |visited| ==> !visited[i]
    ensures Tracks(labels, visited, [], [])
  {
    CountFalseNone(visited);
  }

  /** Flagging an unvisited node and recording it keeps the bookkeeping. */
  lemma TracksMark(labels: seq<string>, visited: seq<bool>, order: seq<nat>, r: seq<string>, c: nat)
    requires Tracks(labels, visited, order, r) && c < |labels| && !visited[c]
    ensures Tracks(labels, visited[c := true], order + [c], r + [labels[c]])
  {
    CountFalseMark(visited, c);
  }

  /** Once every node is flagged, every node has been visited exactly once. */
  lemma TracksAll(labels: seq<string>, visited: seq<bool>, order: seq<nat>, r: seq<string>)
    requires Tracks(labels, visited, order, r)
    requires forall i :: 0 <= i < |visited| ==> visited[i]
    ensures |order| == |labels|
  {
    CountFalseAll(visited);
  }

  /** Every node in ns is flagged. */
  ghost predicate AllMarked(visited: seq<bool>, ns: seq<nat>) {
    forall x :: x in ns ==> x < |visited| && visited[x]
  }

  /** Flags only ever get set while a traversal runs. */
  ghost predicate Grows(before: seq<bool>, after: seq<bool>) {
    |before| == |after| && forall i :: 0 <= i < |before| && before[i] ==> after[i]
  }

  lemma TracksGrows(labels: seq<string>, v0: seq<bool>, s0: seq<nat>, r0: seq<string>,
                    v1: seq<bool>, s1: seq<nat>, r1: seq<string>)
    requires Tracks(labels, v0, s0, r0) && Tracks(labels, v1, s1, r1)
    requires |s0| <= |s1| && s1[..|s0|] == s0
    ensures Grows(v0, v1)
  {
    forall i | 0 <= i < |v0| && v0[i]
      ensures v1[i]
    {
      var k :| 0 <= k < |s0| && s0[k] == i;
      assert s1[k] == i;
    }
  }

  /** Every node at a position below n of order has all its neighbours flagged. */
  ghost predicate DoneUpTo(adj: seq<seq<nat>>, visited: seq<bool>, order: seq<nat>, n: nat) {
    && n <= |order|
    && forall k :: 0 <= k < n ==> order[k] < |adj| && AllMarked(visited, adj[order[k]])
  }

  // ---------------------------------------------------------------------
  // Breadth-first traversal

  /** The state of the breadth-first loop: the first node was visited
      first, every visited node is reachable from it and was discovered
      along an edge from an earlier one. */
  ghost predicate BfsState(labels: seq<string>, adj: seq<seq<nat>>, visited: seq<bool>, order: seq<nat>, r: seq<string>) {
    && |adj| == |labels|
    && Tracks(labels, visited, order, r)
    && |order| > 0 && order[0] == 0
    && (forall k :: 0 <= k < |order| ==> Reachable(adj, 0, order[k]))
    && (forall k :: 0 < k < |order| ==> HasParent(adj, order, 0, k))
  }

  lemma BfsStart(labels: seq<string>, adj: seq<seq<nat>>, visited: seq<bool>)
    requires |adj| == |labels| == |visited| > 0
    requires forall i :: 0 <= i < |visited| ==> !visited[i]
    ensures BfsState(labels, adj, visited[0 := true], [0], [labels[0]])
    ensures DoneUpTo(adj, visited[0 := true], [0], 0)
  {
    TracksStart(labels, visited);
    TracksMark(labels, visited, [], [], 0);
    ReachableSelf(adj, 0);
  }

  /** The state of the neighbour loop of the node at position head - 1
      (the node last dequeued): its first m neighbours are flagged. */
  ghost predicate BfsLoop(labels: seq<string>, adj: seq<seq<nat>>, visited: seq<bool>, order: seq<nat>, r: seq<string>,
                          head: nat, node: nat, m: nat) {
    && BfsState(labels, adj, visited, order, r)
    && 0 < head <= |order| && DoneUpTo(adj, visited, order, head - 1)
    && node == order[head - 1] && node < |adj| && m <= |adj[node]|
    && forall mm :: 0 <= mm < m ==> adj[node][mm] < |visited| && visited[adj[node][mm]]
  }

  /** Dequeueing the node at position head starts its neighbour loop. */
  lemma BfsDequeue(labels: seq<string>, adj: seq<seq<nat>>, visited: seq<bool>, order: seq<nat>, r: seq<string>,
                   head: nat)
    requires BfsState(labels, adj, visited, order, r) && DoneUpTo(adj, visited, order, head) && head < |order|
    ensures BfsLoop(labels, adj, visited, order, r, head + 1, order[head], 0)
    ensures order[head..][0] == order[head] && order[head..][1..] == order[head + 1..]
  {
  }

  /** A neighbour that is already flagged is not enqueued again. */
  lemma BfsSkip(labels: seq<string>, adj: seq<seq<nat>>, visited: seq<bool>, order: seq<nat>, r: seq<string>,
                head: nat, node: nat, m: nat)
    requires BfsLoop(labels, adj, visited, order, r, head, node, m) && m < |adj[node]|
    requires adj[node][m] < |visited| && visited[adj[node][m]]
    ensures BfsLoop(labels, adj, visited, order, r, head, node, m + 1)
  {
  }

  /** Enqueueing the unflagged neighbour c, the m-th of the node at
      position head - 1: it is flagged, recorded and appended to the queue. */
  lemma BfsDiscover(labels: seq<string>, adj: seq<seq<nat>>, visited: seq<bool>, order: seq<nat>, r: seq<string>,
                    head: nat, node: nat, m: nat, c: nat)
    requires WellFormed(adj) && BfsLoop(labels, adj, visited, order, r, head, node, m)
    requires m < |adj[node]| && c == adj[node][m] && !visited[c]
    ensures BfsLoop(labels, adj, visited[c := true], order + [c], r + [labels[c]], head, node, m + 1)
    ensures (order + [c])[head..] == order[head..] + [c]
  {
    var order' := order + [c];
    var visited' := visited[c := true];
    assert c in adj[node];
    TracksMark(labels, visited, order, r, c);
    ReachableStep(adj, 0, node, c);
    forall k | 0 < k < |order'|
      ensures HasParent(adj, order', 0, k)
    {
      if k < |order| {
        HasParentExtend(adj, order, order', 0, 0, k);
      } else {
        assert order'[head - 1] == node && order'[k] == c;
      }
    }
    forall k | 0 <= k < head - 1
      ensures AllMarked(visited', adj[order'[k]])
    {
      assert order'[k] == order[k];
    }
    assert order'[head - 1] == node;
  }

  /** Once every neighbour of the dequeued node is flagged, the nodes before
      the queue's head are done. */
  lemma BfsAdvance(labels: seq<string>, adj: seq<seq<nat>>, visited: seq<bool>, order: seq<nat>, r: seq<string>,
                   head: nat, node: nat)
    requires node < |adj| && BfsLoop(labels, adj, visited, order, r, head, node, |adj[node]|)
    ensures BfsState(labels, adj, visited, order, r) && DoneUpTo(adj, visited, order, head)
  {
  }

  /** The loop ends with every visited node's neighbours visited, so the
      visited nodes are exactly those reachable from the first node. */
  lemma BfsComplete(labels: seq<string>, adj: seq<seq<nat>>, visited: seq<bool>, order: seq<nat>, r: seq<string>)
    requires WellFormed(adj) && Distinct(labels)
    requires BfsState(labels, adj, visited, order, r) && DoneUpTo(adj, visited, order, |order|)
    ensures forall i :: 0 <= i < |labels| ==> (i in order <==> Reachable(adj, 0, i))
    ensures |r| > 0 && r[0] == labels[0] && Distinct(r)
  {
    forall i, k | 0 <= i < |adj| && 0 <= k < |adj[i]| && visited[i]
      ensures visited[adj[i][k]]
    {
      var j :| 0 <= j < |order| && order[j] == i;
      assert AllMarked(visited, adj[order[j]]);
    }
    assert Closed(adj, visited);
    forall i | 0 <= i < |labels| && Reachable(adj, 0, i)
      ensures i in order
    {
      ClosedContainsReachable(adj, visited, 0, i);
    }
    LabelsOfDistinct(labels, order);
  }

  // ---------------------------------------------------------------------
  // Depth-first traversal

  /** The state of one depth-first visit that started at position lo with
      node: every later node was discovered along an edge from a node of
      this visit, is reachable from node, and (except node itself, whose
      neighbour loop is still running) has all its neighbours flagged. */
  ghost predicate VisitState(adj: seq<seq<nat>>, visited: seq<bool>, order: seq<nat>, lo: nat, node: nat) {
    && lo < |order| && order[lo] == node
    && (forall k :: lo < k < |order| ==> HasParent(adj, order, lo, k))
    && (forall k :: lo <= k < |order| ==> Reachable(adj, node, order[k]))
    && DoneFrom(adj, visited, order, lo + 1)
  }

  /** Every node at a position from lo on has all its neighbours flagged. */
  ghost predicate DoneFrom(adj: seq<seq<nat>>, visited: seq<bool>, order: seq<nat>, lo: nat) {
    forall k :: lo <= k < |order| ==> order[k] < |adj| && AllMarked(visited, adj[order[k]])
  }

  lemma VisitStart(adj: seq<seq<nat>>, visited: seq<bool>, order: seq<nat>, node: nat)
    requires node < |adj|
    ensures VisitState(adj, visited, order + [node], |order|, node)
  {
    ReachableSelf(adj, node);
  }

  /** A recursive visit of an unvisited neighbour c of node extends the
      visit of node. */
  lemma VisitCombine(adj: seq<seq<nat>>, v0: seq<bool>, s0: seq<nat>, v1: seq<bool>, s1: seq<nat>,
                     lo: nat, node: nat, c: nat)
    requires node < |adj| && c in adj[node]
    requires VisitState(adj, v0, s0, lo, node) && Grows(v0, v1)
    requires |s0| < |s1| && s1[..|s0|] == s0
    requires VisitState(adj, v1, s1, |s0|, c) && c < |adj| && AllMarked(v1, adj[c])
    ensures VisitState(adj, v1, s1, lo, node)
  {
    forall k | lo < k < |s1|
      ensures HasParent(adj, s1, lo, k)
    {
      if k < |s0| {
        HasParentExtend(adj, s0, s1, lo, lo, k);
      } else if k == |s0| {
        assert s1[lo] == node;
      } else {
        HasParentExtend(adj, s1, s1, |s0|, lo, k);
      }
    }
    forall k | lo <= k < |s1|
      ensures Reachable(adj, node, s1[k])
    {
      if k < |s0| {
        assert s1[k] == s0[k];
      } else {
        ReachablePrepend(adj, node, c, s1[k]);
      }
    }
    forall k | lo + 1 <= k < |s1|
      ensures s1[k] < |adj| && AllMarked(v1, adj[s1[k]])
    {
      if k < |s0| {
        assert s1[k] == s0[k];
      }
    }
  }

  /** The state of the neighbour loop of a visit of node that started at
      position lo: the bookkeeping holds, the visit is consistent, and the
      first m neighbours in nbrs are flagged. */
  ghost predicate VisitLoop(labels: seq<string>, adj: seq<seq<nat>>, visited: seq<bool>, order: seq<nat>, r: seq<string>,
                            lo: nat, node: nat, nbrs: seq<nat>, m: nat) {
    && Tracks(labels, visited, order, r)
    && VisitState(adj, visited, order, lo, node)
    && m <= |nbrs|
    && forall mm :: 0 <= mm < m ==> nbrs[mm] < |visited| && visited[nbrs[mm]]
  }

  /** Flagging and recording node starts the neighbour loop of its visit. */
  lemma VisitEnter(labels: seq<string>, adj: seq<seq<nat>>, visited: seq<bool>, order: seq<nat>, r: seq<string>,
                   node: nat)
    requires |adj| == |labels| && Tracks(labels, visited, order, r) && node < |labels| && !visited[node]
    ensures VisitLoop(labels, adj, visited[node := true], order + [node], r + [labels[node]], |order|, node, adj[node], 0)
    ensures (order + [node])[..|order|] == order
  {
    TracksMark(labels, visited, order, r, node);
    VisitStart(adj, visited[node := true], order, node);
  }

  /** A neighbour that is already flagged needs no visit. */
  lemma VisitSkip(labels: seq<string>, adj: seq<seq<nat>>, visited: seq<bool>, order: seq<nat>, r: seq<string>,
                  lo: nat, node: nat, nbrs: seq<nat>, m: nat)
    requires VisitLoop(labels, adj, visited, order, r, lo, node, nbrs, m)
    requires m < |nbrs| && nbrs[m] < |visited| && visited[nbrs[m]]
    ensures VisitLoop(labels, adj, visited, order, r, lo, node, nbrs, m + 1)
  {
  }

  /** The finished recursive visit of the unflagged neighbour nbrs[m]
      extends the visit of node. */
  lemma VisitChild(labels: seq<string>, adj: seq<seq<nat>>, v0: seq<bool>, s0: seq<nat>, r0: seq<string>,
                   v1: seq<bool>, s1: seq<nat>, r1: seq<string>, lo: nat, node: nat, m: nat)
    requires node < |adj| && VisitLoop(labels, adj, v0, s0, r0, lo, node, adj[node], m) && m < |adj[node]|
    requires Tracks(labels, v1, s1, r1) && |s0| < |s1| && s1[..|s0|] == s0
    requires VisitState(adj, v1, s1, |s0|, adj[node][m]) && adj[node][m] < |adj| && AllMarked(v1, adj[adj[node][m]])
    ensures VisitLoop(labels, adj, v1, s1, r1, lo, node, adj[node], m + 1)
    ensures s1[..lo] == s0[..lo]
  {
    var c := adj[node][m];
    TracksGrows(labels, v0, s0, r0, v1, s1, r1);
    VisitCombine(adj, v0, s0, v1, s1, lo, node, c);
    assert s1[..lo] == s1[..|s0|][..lo];
  }

  /** After a neighbour loop has seen every neighbour of node, the visit is done. */
  lemma VisitFinish(labels: seq<string>, adj: seq<seq<nat>>, visited: seq<bool>, order: seq<nat>, r: seq<string>,
                    lo: nat, node: nat)
    requires node < |adj| && VisitLoop(labels, adj, visited, order, r, lo, node, adj[node], |adj[node]|)
    ensures Tracks(labels, visited, order, r)
    ensures VisitState(adj, visited, order, lo, node) && AllMarked(visited, adj[node]) && DoneFrom(adj, visited, order, lo)
  {
  }

  /** Every node of order[..k] inserted before order[k] precedes it: order[k]
      started a new depth-first tree. */
  ghost predicate RootAt(order: seq<nat>, k: nat)
    requires k < |order|
  {
    forall m :: 0 <= m < order[k] ==> m in order[..k]
  }

  /** The state of the outer depth-first scan: every visited node has its
      neighbours visited, and each node was either discovered along an edge
      from an earlier one or started a tree once all earlier-inserted nodes
      were visited. */
  ghost predicate DfsState(adj: seq<seq<nat>>, visited: seq<bool>, order: seq<nat>) {
    && DoneFrom(adj, visited, order, 0)
    && forall k :: 0 <= k < |order| ==> HasParent(adj, order, 0, k) || RootAt(order, k)
  }

  /** A visit started at node i by the outer scan extends the scan. */
  lemma DfsCombine(adj: seq<seq<nat>>, v0: seq<bool>, s0: seq<nat>, v1: seq<bool>, s1: seq<nat>, i: nat)
    requires DfsState(adj, v0, s0) && Grows(v0, v1)
    requires forall m :: 0 <= m < i ==> m in s0
    requires |s0| < |s1| && s1[..|s0|] == s0
    requires VisitState(adj, v1, s1, |s0|, i) && i < |adj| && AllMarked(v1, adj[i])
    ensures DfsState(adj, v1, s1)
  {
    forall k | 0 <= k < |s1|
      ensures HasParent(adj, s1, 0, k) || RootAt(s1, k)
    {
      if k < |s0| {
        assert s1[..k] == s0[..k];
        if HasParent(adj, s0, 0, k) {
          HasParentExtend(adj, s0, s1, 0, 0, k);
        }
      } else if k == |s0| {
        assert s1[..k] == s0;
      } else {
        HasParentExtend(adj, s1, s1, |s0|, 0, k);
      }
    }
    forall k | 0 <= k < |s1|
      ensures s1[k] < |adj| && AllMarked(v1, adj[s1[k]])
    {
      if k < |s0| {
        assert s1[k] == s0[k];
        assert AllMarked(v0, adj[s0[k]]);
      }
    }
  }

  /** The state of the outer depth-first scan before node i: the nodes
      below i are flagged, and the first node visited is node 0. */
  ghost predicate DfsLoop(labels: seq<string>, adj: seq<seq<nat>>, visited: seq<bool>, order: seq<nat>, r: seq<string>,
                          i: nat) {
    && i <= |labels| && Tracks(labels, visited, order, r) && DfsState(adj, visited, order)
    && (forall m :: 0 <= m < i ==> visited[m])
    && (|order| > 0 ==> order[0] == 0)
  }

  lemma DfsStart(labels: seq<string>, adj: seq<seq<nat>>, visited: seq<bool>)
    requires |visited| == |labels|
    requires forall i :: 0 <= i < |visited| ==> !visited[i]
    ensures DfsLoop(labels, adj, visited, [], [], 0)
  {
    TracksStart(labels, visited);
  }

  /** A node flagged by an earlier visit is skipped by the scan. */
  lemma DfsSkip(labels: seq<string>, adj: seq<seq<nat>>, visited: seq<bool>, order: seq<nat>, r: seq<string>, i: nat)
    requires DfsLoop(labels, adj, visited, order, r, i) && i < |labels| && visited[i]
    ensures DfsLoop(labels, adj, visited, order, r, i + 1)
  {
  }

  /** The finished visit started at the unflagged node i extends the scan. */
  lemma DfsVisited(labels: seq<string>, adj: seq<seq<nat>>, v0: seq<bool>, s0: seq<nat>, r0: seq<string>,
                   v1: seq<bool>, s1: seq<nat>, r1: seq<string>, i: nat)
    requires DfsLoop(labels, adj, v0, s0, r0, i) && i < |labels| && !v0[i]
    requires Tracks(labels, v1, s1, r1) && |s0| < |s1| && s1[..|s0|] == s0
    requires VisitState(adj, v1, s1, |s0|, i) && i < |adj| && AllMarked(v1, adj[i])
    ensures DfsLoop(labels, adj, v1, s1, r1, i + 1)
  {
    TracksGrows(labels, v0, s0, r0, v1, s1, r1);
    forall m | 0 <= m < i
      ensures m in s0
    {
      assert v0[m];
    }
    DfsCombine(adj, v0, s0, v1, s1, i);
    if |s0| == 0 {
      assert i == 0 || 0 in s0;
    } else {
      assert s1[0] == s0[0];
    }
  }

  /** When the scan ends every node was visited exactly once. */
  lemma DfsFinish(labels: seq<string>, adj: seq<seq<nat>>, visited: seq<bool>, order: seq<nat>, r: seq<string>)
    requires Distinct(labels) && DfsLoop(labels, adj, visited, order, r, |labels|)
    ensures |order| == |labels| && Distinct(r)
    ensures forall i :: 0 <= i < |labels| ==> labels[i] in r
  {
    TracksAll(labels, visited, order, r);
    LabelsOfDistinct(labels, order);
    forall i | 0 <= i < |labels|
      ensures labels[i] in r
    {
      assert visited[i] && i in order;
      var k :| 0 <= k < |order| && order[k] == i;
      assert r[k] == labels[i];
    }
  }

  // ---------------------------------------------------------------------
  // Enumeration of simple paths

  /** During path enumeration the flagged nodes are exactly those on the
      current path before its last node. */
  ghost predicate OnPath(adj: seq<seq<nat>>, visited: seq<bool>, ipath: seq<nat>) {
    && IsSimplePath(adj, ipath)
    && |visited| == |adj|
    && forall i :: 0 <= i < |visited| ==> (visited[i] <==> i in ipath[..|ipath| - 1])
  }

  /** Flagging the last node of the path flags exactly the nodes on it. */
  lemma PathsMark(adj: seq<seq<nat>>, visited: seq<bool>, ipath: seq<nat>)
    requires OnPath(adj, visited, ipath)
    ensures OnWholePath(adj, visited[ipath[|ipath| - 1] := true], ipath)
  {
    assert ipath[..|ipath| - 1] + [ipath[|ipath| - 1]] == ipath;
  }

  /** The flagged nodes are exactly those on the current path. */
  ghost predicate OnWholePath(adj: seq<seq<nat>>, visited: seq<bool>, ipath: seq<nat>) {
    && IsSimplePath(adj, ipath)
    && |visited| == |adj|
    && forall i :: 0 <= i < |visited| ==> (visited[i] <==> i in ipath)
  }

  /** Each emitted path is the label sequence of a simple path that extends
      ipath and ends at dest. */
  ghost predicate Emitted(labels: seq<string>, adj: seq<seq<nat>>, out: seq<seq<string>>, iout: seq<seq<nat>>,
                          ipath: seq<nat>, dest: nat) {
    && |out| == |iout|
    && forall k :: 0 <= k < |iout| ==>
         && IsSimplePath(adj, iout[k]) && ipath <= iout[k] && iout[k][|iout[k]| - 1] == dest
         && (forall j :: 0 <= j < |iout[k]| ==> iout[k][j] < |labels|)
         && out[k] == LabelsOf(labels, iout[k])
  }

  /** Every simple path to dest that extends ipath and then leaves it through
      one of the first m neighbours in nbrs has been emitted. */
  ghost predicate CoveredVia(adj: seq<seq<nat>>, iout: seq<seq<nat>>, ipath: seq<nat>, dest: nat, nbrs: seq<nat>, m: nat) {
    forall q, mm ::
      (IsSimplePath(adj, q) && ipath <= q && q[|q| - 1] == dest && |ipath| < |q| && 0 <= mm < m && mm < |nbrs|
       && q[|ipath|] == nbrs[mm]) ==> q in iout
  }

  /** Every simple path to dest that extends ipath has been emitted. */
  ghost predicate Covered(adj: seq<seq<nat>>, iout: seq<seq<nat>>, ipath: seq<nat>, dest: nat) {
    forall q :: IsSimplePath(adj, q) && ipath <= q && q[|q| - 1] == dest ==> q in iout
  }

  lemma EmittedAppend(labels: seq<string>, adj: seq<seq<nat>>, o0: seq<seq<string>>, i0: seq<seq<nat>>,
                      o1: seq<seq<string>>, i1: seq<seq<nat>>, ipath: seq<nat>, c: nat, dest: nat)
    requires Emitted(labels, adj, o0, i0, ipath, dest) && Emitted(labels, adj, o1, i1, ipath + [c], dest)
    ensures Emitted(labels, adj, o0 + o1, i0 + i1, ipath, dest)
  {
    forall k | 0 <= k < |i1|
      ensures ipath <= i1[k]
    {
      assert ipath == (ipath + [c])[..|ipath|];
    }
  }

  /** When the current node is dest, the current path is the only simple
      path to dest that extends it. */
  lemma PathsAtDest(labels: seq<string>, adj: seq<seq<nat>>, ipath: seq<nat>, dest: nat)
    requires IsSimplePath(adj, ipath) && ipath[|ipath| - 1] == dest && |adj| == |labels|
    ensures Emitted(labels, adj, [LabelsOf(labels, ipath)], [ipath], ipath, dest)
    ensures Covered(adj, [ipath], ipath, dest)
  {
    forall q | IsSimplePath(adj, q) && ipath <= q && q[|q| - 1] == dest
      ensures q == ipath
    {
      assert q[|ipath| - 1] == dest;
    }
  }

  /** Moving into an unflagged neighbour c keeps the path simple. */
  lemma PathsEnter(adj: seq<seq<nat>>, visited: seq<bool>, ipath: seq<nat>, c: nat)
    requires OnWholePath(adj, visited, ipath)
    requires c in adj[ipath[|ipath| - 1]] && c < |adj| && !visited[c]
    ensures OnPath(adj, visited, ipath + [c])
  {
    var p := ipath + [c];
    assert p[..|p| - 1] == ipath;
    assert p[|ipath|] == c;
  }

  /** One more neighbour nbrs[m] of the current node has been explored:
      either it is on the path (no simple path leaves through it) or the
      recursive enumeration from it covered every path leaving through it. */
  lemma PathsStep(adj: seq<seq<nat>>, visited: seq<bool>, i0: seq<seq<nat>>, i1: seq<seq<nat>>,
                  ipath: seq<nat>, dest: nat, nbrs: seq<nat>, m: nat)
    requires OnWholePath(adj, visited, ipath)
    requires m < |nbrs| && nbrs[m] < |adj| && CoveredVia(adj, i0, ipath, dest, nbrs, m)
    requires visited[nbrs[m]] ==> i1 == []
    requires !visited[nbrs[m]] ==> Covered(adj, i1, ipath + [nbrs[m]], dest)
    ensures CoveredVia(adj, i0 + i1, ipath, dest, nbrs, m + 1)
  {
    var c := nbrs[m];
    forall q, mm | IsSimplePath(adj, q) && ipath <= q && q[|q| - 1] == dest && |ipath| < |q| && 0 <= mm < m + 1
                   && mm < |nbrs| && q[|ipath|] == nbrs[mm]
      ensures q in i0 + i1
    {
      if mm == m {
        if visited[c] {
          assert false;
        }
        assert q[..|ipath| + 1] == ipath + [c];
      }
    }
  }

  /** Once every neighbour of the current node (which is not dest) has been
      explored, every simple path to dest extending the path is covered. */
  lemma PathsFinish(labels: seq<string>, adj: seq<seq<nat>>, visited: seq<bool>, ipath: seq<nat>, dest: nat,
                    out: seq<seq<string>>, iout: seq<seq<nat>>, node: nat)
    requires WellFormed(adj) && node < |adj|
    requires PathsLoop(labels, adj, visited, ipath, dest, out, iout, node, |adj[node]|)
    ensures Emitted(labels, adj, out, iout, ipath, dest) && Covered(adj, iout, ipath, dest)
  {
    forall q | IsSimplePath(adj, q) && ipath <= q && q[|q| - 1] == dest
      ensures q in iout
    {
      assert q[|ipath| - 1] == node;
      assert q[|ipath|] in adj[node];
    }
  }

  /** The state of the neighbour loop of the last node of ipath (which is
      not dest): the path is flagged, what was emitted is sound, and every
      path leaving through one of the first m neighbours was emitted. */
  ghost predicate PathsLoop(labels: seq<string>, adj: seq<seq<nat>>, visited: seq<bool>, ipath: seq<nat>, dest: nat,
                            out: seq<seq<string>>, iout: seq<seq<nat>>, node: nat, m: nat) {
    && OnWholePath(adj, visited, ipath)
    && node == ipath[|ipath| - 1] && node != dest && m <= |adj[node]|
    && Emitted(labels, adj, out, iout, ipath, dest)
    && CoveredVia(adj, iout, ipath, dest, adj[node], m)
  }

  /** Flagging node, the last of the path, starts its neighbour loop. */
  lemma PathsBegin(labels: seq<string>, adj: seq<seq<nat>>, visited: seq<bool>, ipath: seq<nat>, dest: nat)
    requires OnPath(adj, visited, ipath) && ipath[|ipath| - 1] != dest
    ensures PathsLoop(labels, adj, visited[ipath[|ipath| - 1] := true], ipath, dest, [], [], ipath[|ipath| - 1], 0)
    ensures CountFalse(visited[ipath[|ipath| - 1] := true]) < CountFalse(visited)
    ensures visited[ipath[|ipath| - 1] := true][ipath[|ipath| - 1] := false] == visited
  {
    PathsMark(adj, visited, ipath);
    CountFalseMark(visited, ipath[|ipath| - 1]);
  }

  /** A flagged neighbour is on the path: no simple path leaves through it. */
  lemma PathsSkip(labels: seq<string>, adj: seq<seq<nat>>, visited: seq<bool>, ipath: seq<nat>, dest: nat,
                  out: seq<seq<string>>, iout: seq<seq<nat>>, node: nat, m: nat)
    requires WellFormed(adj) && node < |adj|
    requires PathsLoop(labels, adj, visited, ipath, dest, out, iout, node, m) && m < |adj[node]|
    requires visited[adj[node][m]]
    ensures PathsLoop(labels, adj, visited, ipath, dest, out, iout, node, m + 1)
  {
    PathsStep(adj, visited, iout, [], ipath, dest, adj[node], m);
    assert iout + [] == iout;
  }

  /** Descending into the unflagged neighbour c, the m-th of node, keeps the
      path simple and pushes c's label onto the label stack. */
  lemma PathsDescend(labels: seq<string>, adj: seq<seq<nat>>, visited: seq<bool>, ipath: seq<nat>, dest: nat,
                     out: seq<seq<string>>, iout: seq<seq<nat>>, node: nat, m: nat, c: nat)
    requires WellFormed(adj) && node < |adj| && |adj| == |labels|
    requires PathsLoop(labels, adj, visited, ipath, dest, out, iout, node, m) && m < |adj[node]|
    requires c == adj[node][m] && !visited[c]
    ensures OnPath(adj, visited, ipath + [c]) && (ipath + [c])[|ipath + [c]| - 1] == c
    ensures LabelsOf(labels, ipath + [c]) == LabelsOf(labels, ipath) + [labels[c]]
  {
    PathsEnter(adj, visited, ipath, c);
    LabelsOfPush(labels, ipath, c);
  }

  /** The enumeration from the unflagged neighbour c, the m-th of node,
      contributes exactly the paths that leave through c. */
  lemma PathsChild(labels: seq<string>, adj: seq<seq<nat>>, visited: seq<bool>, ipath: seq<nat>, dest: nat,
                   out: seq<seq<string>>, iout: seq<seq<nat>>, node: nat, m: nat,
                   o1: seq<seq<string>>, i1: seq<seq<nat>>)
    requires WellFormed(adj) && node < |adj|
    requires PathsLoop(labels, adj, visited, ipath, dest, out, iout, node, m) && m < |adj[node]|
    requires !visited[adj[node][m]]
    requires Emitted(labels, adj, o1, i1, ipath + [adj[node][m]], dest)
    requires Covered(adj, i1, ipath + [adj[node][m]], dest)
    ensures PathsLoop(labels, adj, visited, ipath, dest, out + o1, iout + i1, node, m + 1)
  {
    EmittedAppend(labels, adj, out, iout, o1, i1, ipath, adj[node][m], dest);
    PathsStep(adj, visited, iout, i1, ipath, dest, adj[node], m);
  }

  /** Pushing c's label onto the label stack of ipath gives the label stack
      of ipath + [c]. */
  lemma LabelsOfPush(labels: seq<string>, ipath: seq<nat>, c: nat)
    requires forall k :: 0 <= k < |ipath| ==> ipath[k] < |labels|
    requires c < |labels|
    ensures LabelsOf(labels, ipath + [c]) == LabelsOf(labels, ipath) + [labels[c]]
  {
  }

  /** Popping what was just pushed restores the stack. */
  lemma PopPush(stack: seq<string>, x: string)
    ensures (stack + [x])[..|stack|] == stack
  {
  }

  /** Each emitted path, read as labels, is a simple label path from the
      source's label to the destination's label. */
  lemma PathsSound(labels: seq<string>, adj: seq<seq<nat>>, s: nat, d: nat,
                   out: seq<seq<string>>, iout: seq<seq<nat>>)
    requires |adj| == |labels| && Distinct(labels) && s < |labels| && d < |labels|
    requires Emitted(labels, adj, out, iout, [s], d)
    ensures forall p :: p in out ==> IsSimpleLabelPath(labels, adj, p, labels[s], labels[d])
  {
    forall p | p in out
      ensures IsSimpleLabelPath(labels, adj, p, labels[s], labels[d])
    {
      var k :| 0 <= k < |out| && out[k] == p;
      var q := iout[k];
      LabelsOfPath(labels, adj, q);
      assert q[0] == s;
    }
  }

  /** Every simple label path from the source's label to the destination's
      label is among the emitted ones. */
  lemma PathsComplete(labels: seq<string>, adj: seq<seq<nat>>, s: nat, d: nat,
                      out: seq<seq<string>>, iout: seq<seq<nat>>)
    requires |adj| == |labels| && Distinct(labels) && s < |labels| && d < |labels|
    requires Emitted(labels, adj, out, iout, [s], d) && Covered(adj, iout, [s], d)
    ensures forall p :: IsSimpleLabelPath(labels, adj, p, labels[s], labels[d]) ==> p in out
  {
    forall p | IsSimpleLabelPath(labels, adj, p, labels[s], labels[d])
      ensures p in out
    {
      PathOfLabels(labels, adj, p);
      var q := NodesOf(labels, p);
      IndexOfDistinct(labels, s);
      IndexOfDistinct(labels, d);
      assert q[0] == s && q[|q| - 1] == d;
      assert [s] <= q;
      var k :| 0 <= k < |iout| && iout[k] == q;
      assert out[k] == p;
    }
  }
}
