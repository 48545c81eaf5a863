/** The labelled graph engine: an insertion-ordered list of uniquely
    labelled nodes, each with an ordered neighbour list and a transient
    visitation flag, plus a fixed directedness and two counters. */
module Graphs {
  import opened Adjacency
  import opened Traversal

  /** The business-rule failures the engine reports to its caller. */
  datatype GraphError =
    | EmptyGraph         // get on a graph without nodes
    | InsufficientNodes  // connect or areNeighbours with fewer than two nodes
    | DuplicateLabel     // add with a label already present
    | UnknownLabel       // a label that names no node
    | SelfConnection     // connect with equal labels

  datatype Outcome = Pass | Fail(error: GraphError)

  datatype Result<T> = Ok(value: T) | Err(error: GraphError)

  datatype Option<T> = None | Some(value: T)

  class Graph {
    /** Node labels in insertion order; node i is labels[i]. */
    var labels: seq<string>
    /** adj[i] is node i's neighbour list, in the order edges were added. */
    var adj: seq<seq<nat>>
    /** visited[i] is node i's transient visitation flag. */
    var visited: seq<bool>
    const isDirected: bool
    var nodeCount: nat
    var connectionCount: nat
    /** The label stack of the path being explored by path enumeration,
        shared by every level of the recursion. */
    var pathStack: seq<string>

    /** The object invariant: one flag per node, and the storage invariant. */
    ghost predicate Valid()
      reads this
    {
      |visited| == |labels| && Stored()
    }

    /** The storage invariant: one neighbour list per node, nodeCount is
        the number of nodes, labels are pairwise distinct, every neighbour
        entry names another existing node, an undirected graph is
        symmetric, and each successful connect accounts for one adjacency
        entry (directed) or two (undirected). The flags are not read, so
        the traversals, which change only the flags, keep it for free. */
    ghost predicate Stored()
      reads this`labels, this`adj, this`nodeCount, this`connectionCount
    {
      && |adj| == |labels|
      && nodeCount == |labels|
      && Distinct(labels)
      && WellFormed(adj)
      && NoSelfLoops(adj)
      && (!isDirected ==> Symmetric(adj))
      && TotalDegree(adj) == (if isDirected then 1 else 2) * connectionCount
    }

    /** No visitation flag is set: the state between public operations. */
    ghost predicate Idle()
      reads this
    {
      forall i :: 0 <= i < |visited| ==> !visited[i]
    }

    constructor (isDirected: bool := false)
      ensures Valid() && Idle()
      ensures this.isDirected == isDirected
      ensures labels == [] && adj == [] && connectionCount == 0
    {
      pathStack := [];
      labels := [];
      adj := [];
      visited := [];
      this.isDirected := isDirected;
      nodeCount := 0;
      connectionCount := 0;
    }

    // -------------------------------------------------------------------
    // Mutation

    /** Appends a new node labelled nodeLabel, unless one exists already. */
    method Add(nodeLabel: string) returns (r: Outcome)
      requires Valid()
      modifies this
      ensures Valid()
      ensures r == (if nodeLabel in old(labels) then Fail(DuplicateLabel) else Pass)
      ensures r.Pass? ==> labels == old(labels) + [nodeLabel] && adj == old(adj) + [[]]
      ensures r.Pass? ==> visited == old(visited) + [false] && nodeCount == old(nodeCount) + 1
      ensures r.Fail? ==> labels == old(labels) && adj == old(adj) && visited == old(visited)
      ensures r.Fail? ==> nodeCount == old(nodeCount)
      ensures connectionCount == old(connectionCount)
    {
      var present := Has(nodeLabel);
      if present {
        return Fail(DuplicateLabel);
      }
      TotalDegreeAddNode(adj);
      labels := labels + [nodeLabel];
      adj := adj + [[]];
      visited := visited + [false];
      nodeCount := nodeCount + 1;
      r := Pass;
    }

    /** Connects srcLabel to destLabel after checking, in this order, that
        there are two nodes, that the labels differ and that both exist. */
    method Connect(srcLabel: string, destLabel: string) returns (r: Outcome)
      requires Valid()
      modifies this`adj, this`connectionCount
      ensures Valid()
      ensures old(nodeCount) < 2 ==> r == Fail(InsufficientNodes)
      ensures old(nodeCount) >= 2 && srcLabel == destLabel ==> r == Fail(SelfConnection)
      ensures old(nodeCount) >= 2 && srcLabel != destLabel && (srcLabel !in labels || destLabel !in labels) ==>
                r == Fail(UnknownLabel)
      ensures r.Pass? <==> old(nodeCount) >= 2 && srcLabel != destLabel && srcLabel in labels && destLabel in labels
      ensures r.Fail? ==> adj == old(adj) && connectionCount == old(connectionCount)
      ensures r.Pass? ==>
                adj == Linked(old(adj), IndexOf(labels, srcLabel), IndexOf(labels, destLabel), isDirected)
                && connectionCount == old(connectionCount) + 1
    {
      if nodeCount < 2 {
        return Fail(InsufficientNodes);
      }
      if srcLabel == destLabel {
        return Fail(SelfConnection);
      }
      var hasSrc := Contains(srcLabel);
      var hasDest := Contains(destLabel);
      if !hasSrc || !hasDest {
        return Fail(UnknownLabel);
      }
      Link(srcLabel, destLabel);
      r := Pass;
    }

    /** The unchecked connection step: looks both nodes up, appends dest to
        src's list, src to dest's list when undirected, and counts one
        connection. */
    method Link(srcLabel: string, destLabel: string)
      requires Valid() && srcLabel != destLabel && srcLabel in labels && destLabel in labels
      modifies this`adj, this`connectionCount
      ensures Valid()
      ensures adj == Linked(old(adj), IndexOf(labels, srcLabel), IndexOf(labels, destLabel), isDirected)
      ensures connectionCount == old(connectionCount) + 1
    {
      var src := Find(srcLabel);
      var dest := Find(destLabel);
      var s, d := src.value, dest.value;
      LinkedDegree(adj, s, d, isDirected);
      LinkedInvariants(adj, s, d, isDirected);
      adj := adj[s := adj[s] + [d]];
      if !isDirected {
        adj := adj[d := adj[d] + [s]];
      }
      connectionCount := connectionCount + 1;
    }

    // -------------------------------------------------------------------
    // Queries

    method NodeCount() returns (n: nat)
      requires Valid()
      ensures n == |labels|
    {
      n := nodeCount;
    }

    /** The number of successful connects, read back from the adjacency
        entries they created. */
    method ConnectionCount() returns (n: nat)
      requires Valid()
      ensures TotalDegree(adj) == if isDirected then n else 2 * n
    {
      n := connectionCount;
    }

    /** The linear scan for a label. */
    method Contains(nodeLabel: string) returns (found: bool)
      ensures found <==> nodeLabel in labels
    {
      found := false;
      var i := 0;
      while i < |labels| && !found
        invariant 0 <= i <= |labels|
        invariant found <==> nodeLabel in labels[..i]
      {
        if labels[i] == nodeLabel {
          found := true;
        }
        i := i + 1;
      }
      assert !found ==> labels[..i] == labels;
    }

    /** False on an empty graph, otherwise whether some node has the label. */
    method Has(nodeLabel: string) returns (b: bool)
      ensures b <==> nodeLabel in labels
    {
      if |labels| == 0 {
        return false;
      }
      b := Contains(nodeLabel);
    }

    /** The linear scan that returns the first node with the label. */
    method Find(nodeLabel: string) returns (r: Option<nat>)
      ensures r.Some? <==> nodeLabel in labels
      ensures r.Some? ==> r.value == IndexOf(labels, nodeLabel)
    {
      r := None;
      var i := 0;
      while i < |labels| && r.None?
        invariant 0 <= i <= |labels|
        invariant r.None? ==> nodeLabel !in labels[..i]
        invariant r.Some? ==> r.value < |labels| && labels[r.value] == nodeLabel && nodeLabel !in labels[..r.value]
      {
        if labels[i] == nodeLabel {
          r := Some(i);
        }
        i := i + 1;
      }
      if r.None? {
        assert labels[..i] == labels;
      }
    }

    /** The node labelled nodeLabel, which fails on an empty graph and on an
        unknown label. */
    method Get(nodeLabel: string) returns (r: Result<nat>)
      requires Valid()
      ensures |labels| == 0 ==> r == Err(EmptyGraph)
      ensures |labels| > 0 && nodeLabel !in labels ==> r == Err(UnknownLabel)
      ensures nodeLabel in labels ==> r.Ok? && r.value < |labels| && labels[r.value] == nodeLabel
    {
      if |labels| == 0 {
        return Err(EmptyGraph);
      }
      var present := Has(nodeLabel);
      if !present {
        return Err(UnknownLabel);
      }
      var found := Find(nodeLabel);
      r := Ok(found.value);
    }

    /** Whether the node labelled srcLabel lists a neighbour labelled
        destLabel, which fails with fewer than two nodes. */
    method AreNeighbours(srcLabel: string, destLabel: string) returns (r: Result<bool>)
      requires Valid()
      ensures nodeCount < 2 ==> r == Err(InsufficientNodes)
      ensures nodeCount >= 2 ==> r == Ok(LabelAdjacent(labels, adj, srcLabel, destLabel))
      ensures nodeCount >= 2 && !isDirected ==> r == Ok(LabelAdjacent(labels, adj, destLabel, srcLabel))
    {
      if nodeCount < 2 {
        return Err(InsufficientNodes);
      }
      if !isDirected {
        LabelAdjacentSymmetric(labels, adj, srcLabel, destLabel);
      }
      var b := NeighbourScan(srcLabel, destLabel);
      r := Ok(b);
    }

    /** Scans the nodes for srcLabel and that node's neighbours for
        destLabel, stopping at the first hit. */
    method NeighbourScan(srcLabel: string, destLabel: string) returns (b: bool)
      requires Valid()
      ensures b <==> LabelAdjacent(labels, adj, srcLabel, destLabel)
    {
      b := false;
      var i := 0;
      while i < |labels| && !b
        invariant 0 <= i <= |labels|
        invariant b ==> LabelAdjacent(labels, adj, srcLabel, destLabel)
        invariant !b ==> forall m, k :: 0 <= m < i && labels[m] == srcLabel && 0 <= k < |adj[m]|
                           ==> labels[adj[m][k]] != destLabel
      {
        if labels[i] == srcLabel {
          var k := 0;
          while k < |adj[i]| && !b
            invariant 0 <= k <= |adj[i]|
            invariant b ==> LabelAdjacent(labels, adj, srcLabel, destLabel)
            invariant !b ==> forall kk :: 0 <= kk < k ==> labels[adj[i][kk]] != destLabel
          {
            if labels[adj[i][k]] == destLabel {
              assert adj[i][k] in adj[i];
              b := true;
            }
            k := k + 1;
          }
        }
        i := i + 1;
      }
    }

    // -------------------------------------------------------------------
    // Traversals

    /** Clears every visitation flag. */
    method Unvisit()
      modifies this`visited
      ensures |visited| == old(|visited|) && Idle()
    {
      var i := 0;
      while i < |visited|
        invariant 0 <= i <= |visited| == old(|visited|)
        invariant forall k :: 0 <= k < i ==> !visited[k]
      {
        if visited[i] {
          visited := visited[i := false];
        }
        i := i + 1;
      }
    }

    /** Breadth-first traversal from the first-inserted node: a node is
        flagged when it is enqueued and its label is recorded then, so the
        result lists the nodes reachable from the first one, each once. */
    method Bfs() returns (r: seq<string>, ghost order: seq<nat>)
      requires Valid() && Idle() && |labels| > 0
      modifies this`visited
      ensures visited == old(visited)
      ensures forall k :: 0 <= k < |order| ==> order[k] < |labels|
      ensures r == LabelsOf(labels, order) && Distinct(order)
      ensures |r| > 0 && r[0] == labels[0] && Distinct(r)
      ensures forall i :: 0 <= i < |labels| ==> (i in order <==> Reachable(adj, 0, i))
      ensures forall k :: 0 < k < |order| ==> HasParent(adj, order, 0, k)
    {
      BfsStart(labels, adj, visited);
      var upcoming: seq<nat> := [0];
      visited := visited[0 := true];
      r := [labels[0]];
      order := [0];
      ghost var head := 0;
      while |upcoming| > 0
        invariant Stored() && BfsState(labels, adj, visited, order, r)
        invariant 0 <= head <= |order| && upcoming == order[head..]
        invariant DoneUpTo(adj, visited, order, head)
        decreases |labels| - head
      {
        BfsDequeue(labels, adj, visited, order, r, head);
        var node := upcoming[0];
        upcoming := upcoming[1..];
        head := head + 1;
        var m := 0;
        while m < |adj[node]|
          invariant BfsLoop(labels, adj, visited, order, r, head, node, m)
          invariant Stored() && upcoming == order[head..]
        {
          var c := adj[node][m];
          if !visited[c] {
            BfsDiscover(labels, adj, visited, order, r, head, node, m, c);
            upcoming := upcoming + [c];
            visited := visited[c := true];
            r := r + [labels[c]];
            order := order + [c];
          } else {
            BfsSkip(labels, adj, visited, order, r, head, node, m);
          }
          m := m + 1;
        }
        BfsAdvance(labels, adj, visited, order, r, head, node);
      }
      BfsComplete(labels, adj, visited, order, r);
      Unvisit();
    }

    /** Depth-first traversal over every node: the nodes are scanned in
        insertion order and each one not yet visited starts a recursive
        visit, so every label is recorded exactly once, when its node is
        first flagged. */
    method Dfs() returns (r: seq<string>, ghost order: seq<nat>)
      requires Valid() && Idle()
      modifies this`visited
      ensures visited == old(visited)
      ensures forall k :: 0 <= k < |order| ==> order[k] < |labels|
      ensures r == LabelsOf(labels, order) && Distinct(order) && |order| == |labels|
      ensures |r| == |labels| && Distinct(r) && forall i :: 0 <= i < |labels| ==> labels[i] in r
      ensures |labels| > 0 ==> order[0] == 0
      ensures forall k :: 0 <= k < |order| ==> HasParent(adj, order, 0, k) || RootAt(order, k)
    {
      DfsStart(labels, adj, visited);
      r := [];
      order := [];
      var i := 0;
      while i < |labels|
        invariant Stored() && DfsLoop(labels, adj, visited, order, r, i)
      {
        if !visited[i] {
          ghost var v0, s0, r0 := visited, order, r;
          r, order := Visit(i, r, order);
          DfsVisited(labels, adj, v0, s0, r0, visited, order, r, i);
        } else {
          DfsSkip(labels, adj, visited, order, r, i);
        }
        i := i + 1;
      }
      DfsFinish(labels, adj, visited, order, r);
      Unvisit();
    }

    /** The recursive visit of an unvisited node: flag it, record its
        label, then visit each neighbour that is still unflagged. */
    method Visit(node: nat, r: seq<string>, ghost order: seq<nat>) returns (r': seq<string>, ghost order': seq<nat>)
      requires Valid() && node < |labels| && !visited[node] && Tracks(labels, visited, order, r)
      modifies this`visited
      ensures Valid() && Tracks(labels, visited, order', r')
      ensures |order| < |order'| && order'[..|order|] == order
      ensures VisitState(adj, visited, order', |order|, node) && AllMarked(visited, adj[node])
      decreases |labels| - |order|
    {
      VisitEnter(labels, adj, visited, order, r, node);
      visited := visited[node := true];
      r' := r + [labels[node]];
      order' := order + [node];
      var m := 0;
      while m < |adj[node]|
        invariant Stored() && |order| < |order'| && order'[..|order|] == order
        invariant VisitLoop(labels, adj, visited, order', r', |order|, node, adj[node], m)
      {
        var c := adj[node][m];
        if !visited[c] {
          ghost var v0, s0, r0 := visited, order', r';
          r', order' := Visit(c, r', order');
          VisitChild(labels, adj, v0, s0, r0, visited, order', r', |order|, node, m);
        } else {
          VisitSkip(labels, adj, visited, order', r', |order|, node, adj[node], m);
        }
        m := m + 1;
      }
      VisitFinish(labels, adj, visited, order', r', |order|, node);
    }

    /** Every simple path from srcLabel to destLabel, as label sequences,
        after looking both labels up. */
    method PrintPaths(srcLabel: string, destLabel: string) returns (r: Result<seq<seq<string>>>)
      requires Valid() && Idle()
      modifies this`visited, this`pathStack
      ensures visited == old(visited) && pathStack == [srcLabel]
      ensures |labels| == 0 ==> r == Err(EmptyGraph)
      ensures |labels| > 0 && (srcLabel !in labels || destLabel !in labels) ==> r == Err(UnknownLabel)
      ensures srcLabel in labels && destLabel in labels ==> r.Ok?
      ensures r.Ok? ==> forall p :: p in r.value ==> IsSimpleLabelPath(labels, adj, p, srcLabel, destLabel)
      ensures r.Ok? ==> forall p :: IsSimpleLabelPath(labels, adj, p, srcLabel, destLabel) ==> p in r.value
      ensures r.Ok? && srcLabel == destLabel ==> r.value == [[srcLabel]]
    {
      pathStack := [srcLabel];
      var src := Get(srcLabel);
      if src.Err? {
        return Err(src.error);
      }
      var dest := Get(destLabel);
      if dest.Err? {
        return Err(dest.error);
      }
      var s, d := src.value, dest.value;
      assert pathStack == LabelsOf(labels, [s]);
      assert OnPath(adj, visited, [s]);
      var out: seq<seq<string>>;
      ghost var iout: seq<seq<nat>>;
      out, iout := EnumeratePaths(s, d, [s]);
      PathsSound(labels, adj, s, d, out, iout);
      PathsComplete(labels, adj, s, d, out, iout);
      Unvisit();
      r := Ok(out);
    }

    /** Backtracking enumeration from node along the current path, whose
        labels are on the path stack: at dest the stack is emitted;
        otherwise node is flagged while each unflagged neighbour is pushed,
        explored and popped, and unflagged again. */
    method EnumeratePaths(node: nat, dest: nat, ghost ipath: seq<nat>)
      returns (out: seq<seq<string>>, ghost iout: seq<seq<nat>>)
      requires Valid() && dest < |labels|
      requires OnPath(adj, visited, ipath) && ipath[|ipath| - 1] == node
      requires pathStack == LabelsOf(labels, ipath)
      modifies this`visited, this`pathStack
      ensures visited == old(visited) && pathStack == old(pathStack)
      ensures Emitted(labels, adj, out, iout, ipath, dest)
      ensures Covered(adj, iout, ipath, dest)
      ensures node == dest ==> out == [old(pathStack)]
      decreases CountFalse(visited)
    {
      if node == dest {
        PathsAtDest(labels, adj, ipath, dest);
        return [pathStack], [ipath];
      }
      PathsBegin(labels, adj, visited, ipath, dest);
      visited := visited[node := true];
      ghost var marked := visited;
      out, iout := [], [];
      var m := 0;
      while m < |adj[node]|
        invariant PathsLoop(labels, adj, visited, ipath, dest, out, iout, node, m)
        invariant Stored() && visited == marked && pathStack == old(pathStack)
      {
        var c := adj[node][m];
        if !visited[c] {
          PathsDescend(labels, adj, visited, ipath, dest, out, iout, node, m, c);
          pathStack := pathStack + [labels[c]];
          var o1: seq<seq<string>>;
          ghost var i1: seq<seq<nat>>;
          o1, i1 := EnumeratePaths(c, dest, ipath + [c]);
          PathsChild(labels, adj, visited, ipath, dest, out, iout, node, m, o1, i1);
          out, iout := out + o1, iout + i1;
          PopPush(old(pathStack), labels[c]);
          pathStack := pathStack[..|pathStack| - 1];
        } else {
          PathsSkip(labels, adj, visited, ipath, dest, out, iout, node, m);
        }
        m := m + 1;
      }
      PathsFinish(labels, adj, visited, ipath, dest, out, iout, node);
      visited := visited[node := false];
    }
  }
}
