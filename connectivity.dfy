/** calculateMaxMinEdgeCount and its three checks (GraphvizProcessing.ts,
    section 4): the highest edge count that, used as a minimum, keeps the
    graph connected, keeps every edge of the selected sequence, and leaves
    enough steps with a predecessor. Edge keys are (from, to) pairs; an edge
    whose key has an empty end is ignored, as the `if (fromNode && toNode)`
    tests do after splitting the key. */
module Connectivity {
  import opened Seqs
  import opened EdgeTracking

  /** An entry of `countsToUse`, or an element `{edge, count}` of `validEdges`. */
  type Weighted = (Edge, int)

  /** Both ends of the edge are non-empty step names. */
  predicate Named(e: Edge)
  {
    e.0 != "" && e.1 != ""
  }

  /** The neighbours `adjacencyList.get(v) || new Set()`. */
  function Neighbors(adj: map<string, set<string>>, v: string): set<string>
  {
    if v in adj then adj[v] else {}
  }

  // ---------------------------------------------------------------------------
  // Reachability over an adjacency map
  // ---------------------------------------------------------------------------

  /** A non-empty walk along the adjacency map. */
  ghost predicate IsWalk(adj: map<string, set<string>>, p: seq<string>)
  {
    |p| >= 1 && forall k :: 0 <= k < |p| - 1 ==> p[k + 1] in Neighbors(adj, p[k])
  }

  ghost predicate Reachable(adj: map<string, set<string>>, a: string, b: string)
  {
    exists p :: IsWalk(adj, p) && p[0] == a && p[|p| - 1] == b
  }

  lemma ReachRefl(adj: map<string, set<string>>, a: string)
    ensures Reachable(adj, a, a)
  {
    assert IsWalk(adj, [a]);
  }

  lemma ReachStep(adj: map<string, set<string>>, a: string, x: string, w: string)
    requires Reachable(adj, a, x) && w in Neighbors(adj, x)
    ensures Reachable(adj, a, w)
  {
    var p :| IsWalk(adj, p) && p[0] == a && p[|p| - 1] == x;
    var q := p + [w];
    assert forall k :: 0 <= k < |q| - 1 ==> q[k + 1] in Neighbors(adj, q[k]) by {
      forall k | 0 <= k < |q| - 1 ensures q[k + 1] in Neighbors(adj, q[k]) {
        if k < |p| - 1 {
          assert q[k] == p[k] && q[k + 1] == p[k + 1];
        }
      }
    }
    assert IsWalk(adj, q);
  }

  /** A set that no neighbour leaves. */
  ghost predicate Closed(adj: map<string, set<string>>, s: set<string>)
  {
    forall v :: v in s ==> Neighbors(adj, v) <= s
  }

  lemma {:induction false} WalkStaysIn(adj: map<string, set<string>>, s: set<string>, p: seq<string>, k: nat)
    requires IsWalk(adj, p) && p[0] in s && Closed(adj, s) && k < |p|
    ensures p[k] in s
  {
    if k > 0 {
      WalkStaysIn(adj, s, p, k - 1);
      assert p[k] in Neighbors(adj, p[k - 1]);
    }
  }

  /** Everything reachable from inside a closed set is in it. */
  lemma ClosedReach(adj: map<string, set<string>>, s: set<string>, a: string, b: string)
    requires a in s && Closed(adj, s) && Reachable(adj, a, b)
    ensures b in s
  {
    var p :| IsWalk(adj, p) && p[0] == a && p[|p| - 1] == b;
    WalkStaysIn(adj, s, p, |p| - 1);
  }

  /** A finite closed set holding `start`: every node named in the adjacency
      map, and `start`. */
  lemma FiniteUniverse(adj: map<string, set<string>>, start: string) returns (u: set<string>)
    ensures start in u && Closed(adj, u)
  {
    u := {start} + adj.Keys + (set v, w | v in adj && w in adj[v] :: w);
    forall v | v in u ensures Neighbors(adj, v) <= u {
      if v in adj {
        forall w | w in adj[v] ensures w in u {
        }
      }
    }
  }

  /** `neighbors.forEach(n => { if (!visited.has(n)) stack.push(n); })`: the
      unvisited neighbours go on top of the stack, in an order the model
      leaves open. */
  method PushUnvisited(stack: seq<string>, neighbors: set<string>, visited: set<string>)
    returns (pushed: seq<string>)
    ensures |pushed| >= |stack| && pushed[..|stack|] == stack
    ensures forall w :: w in pushed ==> w in stack || (w in neighbors && w !in visited)
    ensures forall w :: w in neighbors && w !in visited ==> w in pushed
  {
    pushed := stack;
    var pending := neighbors;
    while pending != {}
      invariant pending <= neighbors
      invariant |pushed| >= |stack| && pushed[..|stack|] == stack
      invariant forall w :: w in pushed ==> w in stack || (w in neighbors && w !in visited)
      invariant forall w :: w in neighbors && w !in pending && w !in visited ==> w in pushed
      decreases |pending|
    {
      var neighbor :| neighbor in pending;
      pending := pending - {neighbor};
      if neighbor !in visited {
        pushed := pushed + [neighbor];
      }
    }
  }

  /** Every neighbour of a visited node is visited or still on the stack. */
  ghost predicate Frontier(adj: map<string, set<string>>, visited: set<string>, stack: seq<string>)
  {
    forall v, w :: v in visited && w in Neighbors(adj, v) ==> w in visited || w in stack
  }

  /** The loop invariant of the search: everything visited or on the stack
      is reachable and inside the finite closed `universe`, `start` is
      visited or on the stack, and the frontier is on the stack. */
  ghost predicate Searching(adj: map<string, set<string>>, start: string, universe: set<string>,
                            visited: set<string>, stack: seq<string>)
  {
    && Closed(adj, universe)
    && visited <= universe
    && (forall w :: w in stack ==> w in universe && Reachable(adj, start, w))
    && (forall x :: x in visited ==> Reachable(adj, start, x))
    && (start in visited || start in stack)
    && Frontier(adj, visited, stack)
  }

  /** Popping a visited node keeps the invariant. */
  lemma SkipKeeps(adj: map<string, set<string>>, start: string, universe: set<string>,
                  visited: set<string>, popped: seq<string>, c: string)
    requires Searching(adj, start, universe, visited, popped + [c]) && c in visited
    ensures Searching(adj, start, universe, visited, popped)
  {
    forall v, w | v in visited && w in Neighbors(adj, v) ensures w in visited || w in popped {
      assert w in visited || w in popped + [c];
    }
    assert forall w :: w in popped ==> w in popped + [c];
  }

  /** Visiting the popped node and pushing its unvisited neighbours keeps
      the invariant. */
  lemma VisitKeeps(adj: map<string, set<string>>, start: string, universe: set<string>,
                   visited: set<string>, popped: seq<string>, c: string, stack: seq<string>)
    requires Searching(adj, start, universe, visited, popped + [c]) && c !in visited
    requires |stack| >= |popped| && stack[..|popped|] == popped
    requires forall w :: w in stack ==> w in popped || (w in Neighbors(adj, c) && w !in visited + {c})
    requires forall w :: w in Neighbors(adj, c) && w !in visited + {c} ==> w in stack
    ensures c in universe
    ensures Searching(adj, start, universe, visited + {c}, stack)
  {
    assert c in popped + [c];
    assert forall w :: w in popped ==> w in popped + [c];
    assert forall w :: w in popped ==> w in stack by {
      assert forall w :: w in popped ==> w in stack[..|popped|];
    }
    forall v, w | v in visited + {c} && w in Neighbors(adj, v) ensures w in visited + {c} || w in stack {
      if v != c {
        assert w in visited || w in popped + [c];
      }
    }
    forall w | w in stack && w !in popped ensures w in universe && Reachable(adj, start, w) {
      ReachStep(adj, start, c, w);
    }
  }

  lemma Shrinks(universe: set<string>, visited: set<string>, c: string)
    requires c in universe && c !in visited
    ensures |universe - (visited + {c})| < |universe - visited|
  {
    assert universe - visited == (universe - (visited + {c})) + {c};
  }

  lemma PopLast(stack: seq<string>)
    requires stack != []
    ensures stack == stack[..|stack| - 1] + [stack[|stack| - 1]]
    ensures forall w :: w in stack ==> w == stack[|stack| - 1] || w in stack[..|stack| - 1]
  {
    assert stack == stack[..|stack| - 1] + [stack[|stack| - 1]];
  }

  /** The depth-first search of checkGraphConnectivity: pop a node, skip it
      if visited, otherwise mark it and push its unvisited neighbours. It
      visits exactly the nodes reachable from `start`. */
  method Explore(adj: map<string, set<string>>, start: string) returns (visited: set<string>)
    ensures forall x :: x in visited <==> Reachable(adj, start, x)
  {
    ghost var universe := FiniteUniverse(adj, start);
    ReachRefl(adj, start);
    visited := {};
    var stack := [start];
    while stack != []
      invariant Searching(adj, start, universe, visited, stack)
      decreases |universe - visited|, |stack|
    {
      var currentNode := stack[|stack| - 1];
      PopLast(stack);
      stack := stack[..|stack| - 1];
      if currentNode in visited {
        SkipKeeps(adj, start, universe, visited, stack, currentNode);
        continue;
      }
      ghost var popped, seen := stack, visited;
      visited := visited + {currentNode};
      var neighbors := Neighbors(adj, currentNode);
      stack := PushUnvisited(stack, neighbors, visited);
      VisitKeeps(adj, start, universe, seen, popped, currentNode, stack);
      Shrinks(universe, seen, currentNode);
    }
    forall x | Reachable(adj, start, x) ensures x in visited {
      ClosedReach(adj, visited, start, x);
    }
  }

  // ---------------------------------------------------------------------------
  // The adjacency maps built from the edge list
  // ---------------------------------------------------------------------------

  /** `allNodes.forEach(node => map.set(node, new Set()))` */
  function EmptyAdjacency(nodes: seq<string>): map<string, set<string>>
  {
    if nodes == [] then map[] else EmptyAdjacency(nodes[..|nodes| - 1])[nodes[|nodes| - 1] := {}]
  }

  /** `map.get(v)?.add(w)`: adds only below an existing key. */
  function AddBelow(adj: map<string, set<string>>, v: string, w: string): map<string, set<string>>
  {
    if v in adj then adj[v := adj[v] + {w}] else adj
  }

  /** The undirected adjacency of checkGraphConnectivity: both directions of
      every named edge that is not a self-loop, below existing nodes only. */
  function UndirectedGraph(edges: seq<Weighted>, nodes: seq<string>): map<string, set<string>>
  {
    if edges == [] then EmptyAdjacency(nodes)
    else
      var adj := UndirectedGraph(edges[..|edges| - 1], nodes);
      var e := edges[|edges| - 1].0;
      if Named(e) && e.0 != e.1 then AddBelow(AddBelow(adj, e.0, e.1), e.1, e.0) else adj
  }

  /** The directed adjacency of checkSequenceConnectivity: every named edge,
      creating the source's entry when missing. */
  function DirectedGraph(edges: seq<Weighted>): map<string, set<string>>
  {
    if edges == [] then map[]
    else
      var adj := DirectedGraph(edges[..|edges| - 1]);
      var e := edges[|edges| - 1].0;
      if Named(e) then adj[e.0 := Neighbors(adj, e.0) + {e.1}] else adj
  }

  /** The predecessor sets of checkNodePredecessors: the source of every named
      edge that is not a self-loop, below existing nodes only. */
  function IncomingGraph(edges: seq<Weighted>, nodes: seq<string>): map<string, set<string>>
  {
    if edges == [] then EmptyAdjacency(nodes)
    else
      var adj := IncomingGraph(edges[..|edges| - 1], nodes);
      var e := edges[|edges| - 1].0;
      if Named(e) && e.0 != e.1 then AddBelow(adj, e.1, e.0) else adj
  }

  /** Some named edge that is not a self-loop joins `v` and `w`, in either direction. */
  ghost predicate Linked(edges: seq<Weighted>, v: string, w: string)
  {
    exists i :: 0 <= i < |edges| && Named(edges[i].0) && v != w &&
      (edges[i].0 == (v, w) || edges[i].0 == (w, v))
  }

  /** Some named edge goes from `v` to `w`. */
  ghost predicate DirectEdge(edges: seq<Weighted>, v: string, w: string)
  {
    exists i :: 0 <= i < |edges| && Named(edges[i].0) && edges[i].0 == (v, w)
  }

  /** Some named edge that is not a self-loop enters `v`. */
  ghost predicate HasPredecessor(edges: seq<Weighted>, v: string)
  {
    exists i :: 0 <= i < |edges| && Named(edges[i].0) && edges[i].0.0 != v && edges[i].0.1 == v
  }

  lemma LinkedSnoc(edges: seq<Weighted>)
    requires edges != []
    ensures var init, e := edges[..|edges| - 1], edges[|edges| - 1].0;
      forall v, w :: Linked(edges, v, w) <==> Linked(init, v, w) || (Named(e) && v != w && (e == (v, w) || e == (w, v)))
  {
    var init := edges[..|edges| - 1];
    forall v, w | Linked(init, v, w) ensures Linked(edges, v, w) {
      var i :| 0 <= i < |init| && Named(init[i].0) && v != w && (init[i].0 == (v, w) || init[i].0 == (w, v));
      assert edges[i] == init[i];
    }
  }

  lemma DirectSnoc(edges: seq<Weighted>)
    requires edges != []
    ensures var init, e := edges[..|edges| - 1], edges[|edges| - 1].0;
      forall v, w :: DirectEdge(edges, v, w) <==> DirectEdge(init, v, w) || (Named(e) && e == (v, w))
  {
    var init := edges[..|edges| - 1];
    forall v, w | DirectEdge(init, v, w) ensures DirectEdge(edges, v, w) {
      var i :| 0 <= i < |init| && Named(init[i].0) && init[i].0 == (v, w);
      assert edges[i] == init[i];
    }
  }

  lemma PredecessorSnoc(edges: seq<Weighted>)
    requires edges != []
    ensures var init, e := edges[..|edges| - 1], edges[|edges| - 1].0;
      forall v :: HasPredecessor(edges, v) <==> HasPredecessor(init, v) || (Named(e) && e.0 != v && e.1 == v)
  {
    var init := edges[..|edges| - 1];
    forall v | HasPredecessor(init, v) ensures HasPredecessor(edges, v) {
      var i :| 0 <= i < |init| && Named(init[i].0) && init[i].0.0 != v && init[i].0.1 == v;
      assert edges[i] == init[i];
    }
  }

  lemma {:induction false} EmptyAdjacencyIs(nodes: seq<string>)
    ensures forall v :: v in EmptyAdjacency(nodes) <==> v in nodes
    ensures forall v :: Neighbors(EmptyAdjacency(nodes), v) == {}
  {
    if nodes != [] {
      var init := nodes[..|nodes| - 1];
      EmptyAdjacencyIs(init);
      assert nodes == init + [nodes[|nodes| - 1]];
      forall v ensures Neighbors(EmptyAdjacency(nodes), v) == {} {
        if v != nodes[|nodes| - 1] {
          assert Neighbors(EmptyAdjacency(nodes), v) == Neighbors(EmptyAdjacency(init), v);
        }
      }
    }
  }

  /** The undirected adjacency holds exactly the nodes, and below each the
      nodes linked to it. */
  lemma {:induction false} UndirectedLinks(edges: seq<Weighted>, nodes: seq<string>)
    ensures forall v :: v in UndirectedGraph(edges, nodes) <==> v in nodes
    ensures forall v, w :: w in Neighbors(UndirectedGraph(edges, nodes), v) <==> v in nodes && Linked(edges, v, w)
  {
    if edges == [] {
      EmptyAdjacencyIs(nodes);
    } else {
      var init, e := edges[..|edges| - 1], edges[|edges| - 1].0;
      UndirectedLinks(init, nodes);
      LinkedSnoc(edges);
    }
  }

  /** The directed adjacency holds below each node exactly its direct successors. */
  lemma {:induction false} DirectedLinks(edges: seq<Weighted>)
    ensures forall v, w :: w in Neighbors(DirectedGraph(edges), v) <==> DirectEdge(edges, v, w)
  {
    if edges != [] {
      var init, e := edges[..|edges| - 1], edges[|edges| - 1].0;
      DirectedLinks(init);
      DirectSnoc(edges);
    }
  }

  /** The predecessor sets are empty exactly for the nodes that no named
      edge other than a self-loop enters. */
  lemma {:induction false} IncomingLinks(edges: seq<Weighted>, nodes: seq<string>)
    ensures forall v :: v in IncomingGraph(edges, nodes) <==> v in nodes
    ensures forall v :: v in nodes ==> (Neighbors(IncomingGraph(edges, nodes), v) != {} <==> HasPredecessor(edges, v))
  {
    if edges == [] {
      EmptyAdjacencyIs(nodes);
    } else {
      var init, e := edges[..|edges| - 1], edges[|edges| - 1].0;
      IncomingLinks(init, nodes);
      PredecessorSnoc(edges);
    }
  }

  method BuildEmpty(nodes: seq<string>) returns (adj: map<string, set<string>>)
    ensures adj == EmptyAdjacency(nodes)
  {
    adj := map[];
    for k := 0 to |nodes|
      invariant adj == EmptyAdjacency(nodes[..k])
    {
      assert nodes[..k + 1][..k] == nodes[..k];
      adj := adj[nodes[k] := {}];
    }
    assert nodes[..|nodes|] == nodes;
  }

  /** The adjacency loop of checkGraphConnectivity. */
  method BuildUndirected(edges: seq<Weighted>, nodes: seq<string>) returns (adj: map<string, set<string>>)
    ensures adj == UndirectedGraph(edges, nodes)
  {
    adj := BuildEmpty(nodes);
    for k := 0 to |edges|
      invariant adj == UndirectedGraph(edges[..k], nodes)
    {
      assert edges[..k + 1][..k] == edges[..k];
      var (fromNode, toNode) := edges[k].0;
      if fromNode != "" && toNode != "" && fromNode != toNode {
        if fromNode in adj {
          adj := adj[fromNode := adj[fromNode] + {toNode}];
        }
        if toNode in adj {
          adj := adj[toNode := adj[toNode] + {fromNode}];
        }
      }
    }
    assert edges[..|edges|] == edges;
  }

  /** The adjacency loop of checkSequenceConnectivity. */
  method BuildDirected(edges: seq<Weighted>) returns (adj: map<string, set<string>>)
    ensures adj == DirectedGraph(edges)
  {
    adj := map[];
    for k := 0 to |edges|
      invariant adj == DirectedGraph(edges[..k])
    {
      assert edges[..k + 1][..k] == edges[..k];
      var (fromNode, toNode) := edges[k].0;
      if fromNode != "" && toNode != "" {
        if fromNode !in adj {
          adj := adj[fromNode := {}];
        }
        adj := adj[fromNode := adj[fromNode] + {toNode}];
      }
    }
    assert edges[..|edges|] == edges;
  }

  /** The predecessor loop of checkNodePredecessors. */
  method BuildIncoming(edges: seq<Weighted>, nodes: seq<string>) returns (incoming: map<string, set<string>>)
    ensures incoming == IncomingGraph(edges, nodes)
  {
    incoming := BuildEmpty(nodes);
    for k := 0 to |edges|
      invariant incoming == IncomingGraph(edges[..k], nodes)
    {
      assert edges[..k + 1][..k] == edges[..k];
      var (fromNode, toNode) := edges[k].0;
      if fromNode != "" && toNode != "" && fromNode != toNode {
        if toNode in incoming {
          incoming := incoming[toNode := incoming[toNode] + {fromNode}];
        }
      }
    }
    assert edges[..|edges|] == edges;
  }

  // ---------------------------------------------------------------------------
  // The three checks
  // ---------------------------------------------------------------------------

  /** Every named edge has both ends among the nodes. */
  predicate EndpointsIn(edges: seq<Weighted>, nodes: seq<string>)
  {
    forall x :: x in edges && Named(x.0) ==> x.0.0 in nodes && x.0.1 in nodes
  }

  /** Every node is reachable from the first one over the undirected edges. */
  ghost predicate GraphConnected(edges: seq<Weighted>, nodes: seq<string>)
  {
    nodes != [] ==> forall n :: n in nodes ==> Reachable(UndirectedGraph(edges, nodes), nodes[0], n)
  }

  /** Each consecutive pair of the sequence is a direct edge. */
  ghost predicate SequenceConnected(edges: seq<Weighted>, sel: seq<string>)
  {
    forall k :: 0 <= k < |sel| - 1 ==> DirectEdge(edges, sel[k], sel[k + 1])
  }

  /** The nodes that no named edge other than a self-loop enters. */
  ghost function Orphans(edges: seq<Weighted>, nodes: seq<string>): set<string>
  {
    set n | n in nodes && !HasPredecessor(edges, n)
  }

  /** The two rejections of checkNodePredecessors: more than one node and all
      without a predecessor, or more than two nodes and more than half of them
      without one (`isolatedNodes > totalNodes / 2`, in exact arithmetic). */
  predicate PredecessorsOk(totalNodes: nat, isolatedNodes: nat)
  {
    !(totalNodes > 1 && isolatedNodes == totalNodes) && !(totalNodes > 2 && 2 * isolatedNodes > totalNodes)
  }

  lemma {:induction false} DistinctCard(s: seq<string>)
    requires NoDuplicates(s)
    ensures |set x | x in s| == |s|
  {
    if s != [] {
      var init := s[..|s| - 1];
      DistinctCard(init);
      assert (set x | x in s) == (set x | x in init) + {s[|s| - 1]};
      assert s[|s| - 1] !in init;
    }
  }

  lemma SubsetCard(a: set<string>, b: set<string>)
    requires a <= b && |a| == |b|
    ensures a == b
  {
    assert b == a + (b - a) && a * (b - a) == {};
    assert b - a == {};
  }

  /** Without edges no node reaches another. */
  lemma NoEdgesNoReach(nodes: seq<string>, a: string, b: string)
    requires Reachable(UndirectedGraph([], nodes), a, b)
    ensures a == b
  {
    EmptyAdjacencyIs(nodes);
    ClosedReach(UndirectedGraph([], nodes), {a}, a, b);
  }

  /** checkGraphConnectivity. For node sets holding every end of the edges,
      as calculateMaxMinEdgeCount passes, it is true exactly when every node
      is reachable from the first one. */
  method CheckGraphConnectivity(edges: seq<Weighted>, allNodes: seq<string>) returns (isConnected: bool)
    requires NoDuplicates(allNodes)
    ensures allNodes == [] ==> isConnected
    ensures |edges| == 0 && |allNodes| > 1 ==> !isConnected
    ensures EndpointsIn(edges, allNodes) ==> (isConnected <==> GraphConnected(edges, allNodes))
  {
    if |allNodes| == 0 {
      return true;
    }
    if |edges| == 0 && |allNodes| > 1 {
      if Reachable(UndirectedGraph(edges, allNodes), allNodes[0], allNodes[1]) {
        NoEdgesNoReach(allNodes, allNodes[0], allNodes[1]);
      }
      return false;
    }
    var adjacencyList := BuildUndirected(edges, allNodes);
    var startNode := allNodes[0];
    var visited := Explore(adjacencyList, startNode);
    isConnected := |visited| == |allNodes|;
    if EndpointsIn(edges, allNodes) {
      ghost var nodeSet := set x | x in allNodes;
      DistinctCard(allNodes);
      UndirectedLinks(edges, allNodes);
      assert Closed(adjacencyList, nodeSet) by {
        forall v, w | v in nodeSet && w in Neighbors(adjacencyList, v) ensures w in nodeSet {
          var i :| 0 <= i < |edges| && Named(edges[i].0) && v != w && (edges[i].0 == (v, w) || edges[i].0 == (w, v));
          assert edges[i] in edges;
        }
      }
      forall x | x in visited ensures x in nodeSet {
        ClosedReach(adjacencyList, nodeSet, startNode, x);
      }
      if isConnected {
        SubsetCard(visited, nodeSet);
      } else {
        assert visited != nodeSet;
      }
    }
  }

  /** checkSequenceConnectivity: true exactly when each consecutive pair of
      the selected sequence is a direct edge (so always for at most one step). */
  method CheckSequenceConnectivity(edges: seq<Weighted>, selectedSequence: seq<string>) returns (connected: bool)
    ensures connected <==> SequenceConnected(edges, selectedSequence)
  {
    if |selectedSequence| <= 1 {
      return true;
    }
    var adjacencyList := BuildDirected(edges);
    DirectedLinks(edges);
    for i := 0 to |selectedSequence| - 1
      invariant forall k :: 0 <= k < i ==> DirectEdge(edges, selectedSequence[k], selectedSequence[k + 1])
    {
      var currentNode := selectedSequence[i];
      var nextNode := selectedSequence[i + 1];
      var hasDirectPath := nextNode in Neighbors(adjacencyList, currentNode);
      if !hasDirectPath {
        return false;
      }
    }
    return true;
  }

  /** checkNodePredecessors: counts the nodes without a predecessor and
      applies the two rejections. */
  method CheckNodePredecessors(edges: seq<Weighted>, allNodes: seq<string>, selectedSequence: seq<string>)
    returns (valid: bool)
    requires NoDuplicates(allNodes)
    ensures valid <==> PredecessorsOk(|allNodes|, |Orphans(edges, allNodes)|)
  {
    var incomingEdges := BuildIncoming(edges, allNodes);
    IncomingLinks(edges, allNodes);
    var nodesWithoutPredecessors: set<string> := {};
    var nodesWithPredecessors: set<string> := {};
    for k := 0 to |allNodes|
      invariant nodesWithoutPredecessors == set n | n in allNodes[..k] && !HasPredecessor(edges, n)
    {
      var node := allNodes[k];
      assert allNodes[..k + 1] == allNodes[..k] + [node];
      var hasIncomingEdges := |Neighbors(incomingEdges, node)| > 0;
      if hasIncomingEdges {
        nodesWithPredecessors := nodesWithPredecessors + {node};
      } else {
        nodesWithoutPredecessors := nodesWithoutPredecessors + {node};
      }
    }
    assert allNodes[..|allNodes|] == allNodes;
    DistinctCard(allNodes);
    var totalNodes := |allNodes|;
    var isolatedNodes := |nodesWithoutPredecessors|;
    if totalNodes > 1 && isolatedNodes == totalNodes {
      return false;
    }
    if totalNodes > 2 && 2 * isolatedNodes > totalNodes {
      return false;
    }
    return true;
  }

  // ---------------------------------------------------------------------------
  // calculateMaxMinEdgeCount
  // ---------------------------------------------------------------------------

  /** Both ends of every named edge, in key order. */
  function Endpoints(counts: seq<Weighted>): seq<string>
  {
    if counts == [] then []
    else
      var e := counts[|counts| - 1].0;
      Endpoints(counts[..|counts| - 1]) + if Named(e) then [e.0, e.1] else []
  }

  /** `allNodes`: the ends of the named edges, then the selected steps, each
      once, in insertion order. */
  function AllNodes(counts: seq<Weighted>, sel: seq<string>): seq<string>
  {
    Distinct(Endpoints(counts) + sel)
  }

  lemma {:induction false} EndpointsMembers(counts: seq<Weighted>)
    ensures forall n :: n in Endpoints(counts) <==>
      exists x :: x in counts && Named(x.0) && (n == x.0.0 || n == x.0.1)
  {
    if counts != [] {
      var init, last := counts[..|counts| - 1], counts[|counts| - 1];
      EndpointsMembers(init);
      assert counts == init + [last];
      forall n | exists x :: x in counts && Named(x.0) && (n == x.0.0 || n == x.0.1)
        ensures n in Endpoints(counts)
      {
        var x :| x in counts && Named(x.0) && (n == x.0.0 || n == x.0.1);
        if x != last {
          assert x in init;
        }
      }
    }
  }

  /** The nodes are distinct, and are exactly the selected steps and the ends
      of the named edges; so the edges at any threshold end inside them. */
  lemma AllNodesMembers(counts: seq<Weighted>, sel: seq<string>, t: int)
    ensures NoDuplicates(AllNodes(counts, sel))
    ensures forall n :: n in AllNodes(counts, sel) <==>
      n in sel || exists x :: x in counts && Named(x.0) && (n == x.0.0 || n == x.0.1)
    ensures EndpointsIn(ValidEdges(counts, t), AllNodes(counts, sel))
  {
    EndpointsMembers(counts);
    forall x | x in ValidEdges(counts, t) && Named(x.0)
      ensures x.0.0 in AllNodes(counts, sel) && x.0.1 in AllNodes(counts, sel)
    {
      assert x in counts;
      assert x.0.0 in Endpoints(counts) + sel && x.0.1 in Endpoints(counts) + sel;
    }
  }

  method AddNode(nodes: seq<string>, node: string) returns (r: seq<string>)
    ensures r == if node in nodes then nodes else nodes + [node]
  {
    r := nodes;
    if node !in nodes {
      r := nodes + [node];
    }
  }

  lemma EndpointsStep(counts: seq<Weighted>, k: nat)
    requires k < |counts|
    ensures var e := counts[k].0;
      Endpoints(counts[..k + 1]) == if Named(e) then Endpoints(counts[..k]) + [e.0] + [e.1] else Endpoints(counts[..k])
  {
    assert counts[..k + 1][..k] == counts[..k];
    var e := counts[k].0;
    assert Endpoints(counts[..k]) + [e.0, e.1] == Endpoints(counts[..k]) + [e.0] + [e.1];
  }

  /** The loop over the edge keys that fills `allNodes`. */
  method EdgeNodes(counts: seq<Weighted>) returns (allNodes: seq<string>)
    ensures allNodes == Distinct(Endpoints(counts))
  {
    allNodes := [];
    assert counts[..0] == [];
    for k := 0 to |counts|
      invariant allNodes == Distinct(Endpoints(counts[..k]))
    {
      EndpointsStep(counts, k);
      var (fromNode, toNode) := counts[k].0;
      if fromNode != "" && toNode != "" {
        ghost var before := Endpoints(counts[..k]);
        DistinctSnoc(before, fromNode);
        allNodes := AddNode(allNodes, fromNode);
        DistinctSnoc(before + [fromNode], toNode);
        allNodes := AddNode(allNodes, toNode);
      }
    }
    assert counts[..|counts|] == counts;
  }

  lemma DistinctPrefixStep(ends: seq<string>, sel: seq<string>, j: nat)
    requires j < |sel|
    ensures var d := Distinct(ends + sel[..j]);
      Distinct(ends + sel[..j + 1]) == if sel[j] in d then d else d + [sel[j]]
  {
    DistinctSnoc(ends + sel[..j], sel[j]);
    assert ends + sel[..j + 1] == ends + sel[..j] + [sel[j]];
  }

  /** The two loops that fill `allNodes`: edge ends, then the selected steps. */
  method CollectNodes(counts: seq<Weighted>, selectedSequence: seq<string>) returns (allNodes: seq<string>)
    ensures allNodes == AllNodes(counts, selectedSequence)
  {
    allNodes := EdgeNodes(counts);
    ghost var ends := Endpoints(counts);
    assert ends + selectedSequence[..0] == ends;
    for j := 0 to |selectedSequence|
      invariant allNodes == Distinct(ends + selectedSequence[..j])
    {
      DistinctPrefixStep(ends, selectedSequence, j);
      allNodes := AddNode(allNodes, selectedSequence[j]);
    }
    assert selectedSequence[..|selectedSequence|] == selectedSequence;
  }

  /** `Object.values(countsToUse).filter(count => count > 0)` */
  function PositiveCounts(counts: seq<Weighted>): (r: seq<int>)
    ensures forall c :: c in r <==> c > 0 && exists x :: x in counts && x.1 == c
  {
    if counts == [] then []
    else
      var init, last := counts[..|counts| - 1], counts[|counts| - 1];
      assert counts == init + [last];
      PositiveCounts(init) + if last.1 > 0 then [last.1] else []
  }

  predicate StrictlyDecreasing(s: seq<int>)
  {
    forall i, j :: 0 <= i < j < |s| ==> s[i] > s[j]
  }

  /** Sorted insertion into a strictly decreasing list without repeats. */
  function InsertDescending(s: seq<int>, x: int): (r: seq<int>)
    requires StrictlyDecreasing(s)
    ensures StrictlyDecreasing(r)
    ensures forall y :: y in r <==> y in s || y == x
  {
    if s == [] then [x]
    else if x > s[0] then [x] + s
    else if x == s[0] then s
    else
      var rest := InsertDescending(s[1..], x);
      assert forall y :: y in s[1..] ==> y < s[0];
      assert forall i :: 0 <= i < |rest| ==> rest[i] < s[0] by {
        forall i | 0 <= i < |rest| ensures rest[i] < s[0] {
          assert rest[i] in rest;
        }
      }
      [s[0]] + rest
  }

  /** `[...new Set(values)].sort((a, b) => b - a)`: the distinct values from
      the largest down. */
  function UniqueDescending(values: seq<int>): (r: seq<int>)
    ensures StrictlyDecreasing(r)
    ensures forall y :: y in r <==> y in values
  {
    if values == [] then []
    else
      var init := values[..|values| - 1];
      assert values == init + [values[|values| - 1]];
      InsertDescending(UniqueDescending(init), values[|values| - 1])
  }

  /** The entries whose count reaches the threshold (`validEdges`). */
  function ValidEdges(counts: seq<Weighted>, threshold: int): (r: seq<Weighted>)
    ensures forall x :: x in r ==> x in counts
  {
    Filter((x: Weighted) => x.1 >= threshold, counts)
  }

  /** The three checks all accept the threshold. */
  ghost predicate KeepsConnected(counts: seq<Weighted>, sel: seq<string>, threshold: int)
  {
    var edges, nodes := ValidEdges(counts, threshold), AllNodes(counts, sel);
    && GraphConnected(edges, nodes)
    && SequenceConnected(edges, sel)
    && PredecessorsOk(|nodes|, |Orphans(edges, nodes)|)
  }

  lemma ChecksDecide(counts: seq<Weighted>, sel: seq<string>, threshold: int, nodes: seq<string>,
                     edges: seq<Weighted>, graph: bool, sequence: bool, predecessors: bool)
    requires nodes == AllNodes(counts, sel) && edges == ValidEdges(counts, threshold)
    requires graph <==> GraphConnected(edges, nodes)
    requires sequence <==> SequenceConnected(edges, sel)
    requires predecessors <==> PredecessorsOk(|nodes|, |Orphans(edges, nodes)|)
    ensures (graph && sequence && predecessors) <==> KeepsConnected(counts, sel, threshold)
  {
  }

  /** In a strictly decreasing list, a value above the entry at `k` sits
      before it. */
  lemma AboveIsEarlier(s: seq<int>, k: int, t: int)
    requires StrictlyDecreasing(s) && 0 <= k <= |s| && t in s && (k < |s| ==> t > s[k])
    ensures exists j :: 0 <= j < k && s[j] == t
  {
    var j :| 0 <= j < |s| && s[j] == t;
    assert k == |s| || s[j] > s[k];
  }

  /** One pass of the thresholds loop: the three checks on the edges that
      reach `threshold`. */
  method ThresholdAccepted(countsToUse: seq<Weighted>, selectedSequence: seq<string>,
                           allNodes: seq<string>, threshold: int) returns (ok: bool)
    requires allNodes == AllNodes(countsToUse, selectedSequence)
    ensures ok <==> KeepsConnected(countsToUse, selectedSequence, threshold)
  {
    var validEdges := ValidEdges(countsToUse, threshold);
    AllNodesMembers(countsToUse, selectedSequence, threshold);
    var isGraphConnected := CheckGraphConnectivity(validEdges, allNodes);
    var isSequenceConnected := CheckSequenceConnectivity(validEdges, selectedSequence);
    var hasValidPredecessors := CheckNodePredecessors(validEdges, allNodes, selectedSequence);
    ChecksDecide(countsToUse, selectedSequence, threshold, allNodes, validEdges,
                 isGraphConnected, isSequenceConnected, hasValidPredecessors);
    ok := isGraphConnected && isSequenceConnected && hasValidPredecessors;
  }

  /** calculateMaxMinEdgeCount: 0 without nodes; otherwise the largest
      positive count that keeps the graph connected, the selected sequence
      connected and enough predecessors, or 0 when no count does. */
  method CalculateMaxMinEdgeCount(countsToUse: seq<Weighted>, selectedSequence: seq<string>)
    returns (maxValidThreshold: int)
    ensures AllNodes(countsToUse, selectedSequence) == [] ==> maxValidThreshold == 0
    ensures AllNodes(countsToUse, selectedSequence) != [] ==>
      && (maxValidThreshold == 0 ||
          (maxValidThreshold in PositiveCounts(countsToUse) && KeepsConnected(countsToUse, selectedSequence, maxValidThreshold)))
      && (forall t :: t in PositiveCounts(countsToUse) && t > maxValidThreshold ==>
            !KeepsConnected(countsToUse, selectedSequence, t))
  {
    var allNodes := CollectNodes(countsToUse, selectedSequence);
    if |allNodes| == 0 {
      return 0;
    }
    var edgeCountValues := PositiveCounts(countsToUse);
    var uniqueCounts := UniqueDescending(edgeCountValues);
    maxValidThreshold := 0;
    var k := 0;
    while k < |uniqueCounts|
      invariant k <= |uniqueCounts|
      invariant forall j :: 0 <= j < k ==> !KeepsConnected(countsToUse, selectedSequence, uniqueCounts[j])
    {
      var ok := ThresholdAccepted(countsToUse, selectedSequence, allNodes, uniqueCounts[k]);
      if ok {
        maxValidThreshold := uniqueCounts[k];
        break;
      }
      k := k + 1;
    }
    forall t | t in edgeCountValues && t > maxValidThreshold
      ensures !KeepsConnected(countsToUse, selectedSequence, t)
    {
      AboveIsEarlier(uniqueCounts, k, t);
    }
  }
}
