/**
 * Feedback detection in Function Block Diagrams: the edge list read from the
 * node attributes, the depth-first search over it, and the network check.
 */
module FbdCycles {
  import opened Wrappers

  type Id = string

  datatype Node = Node(id: Id, connectionRefs: Option<string>, inputRefs: Option<string>)
  datatype Edge = Edge(from: Id, to: Id)
  type Graph = map<Id, seq<Id>>

  // ----- edges -----

  function Split(s: string, sep: char): (parts: seq<string>)
    ensures |parts| > 0
  {
    if s == "" then [""]
    else
      var rest := Split(s[1..], sep);
      if s[0] == sep then [""] + rest else [[s[0]] + rest[0]] + rest[1..]
  }

  function NonEmpty(parts: seq<string>): seq<string> {
    if parts == [] then []
    else if parts[0] == "" then NonEmpty(parts[1..])
    else [parts[0]] + NonEmpty(parts[1..])
  }

  // What follows the first '=' of an input attribute part; nothing without one.
  function AfterEquals(part: string): string {
    if part == "" then "" else if part[0] == '=' then part[1..] else AfterEquals(part[1..])
  }

  function InputReferences(parts: seq<string>): seq<Id> {
    if parts == [] then []
    else NonEmpty(Split(AfterEquals(parts[0]), '|')) + InputReferences(parts[1..])
  }

  // The nodes a node takes its inputs from, in attribute order.
  function References(node: Node): seq<Id> {
    (if node.connectionRefs.Some? then NonEmpty(Split(node.connectionRefs.value, ',')) else []) +
    (if node.inputRefs.Some? then InputReferences(NonEmpty(Split(node.inputRefs.value, ';'))) else [])
  }

  // The connections of a network: one edge from each referenced node to the
  // node that refers to it.
  ghost function Connections(nodes: seq<Node>): set<Edge> {
    set i, r | 0 <= i < |nodes| && r in References(nodes[i]) :: Edge(r, nodes[i].id)
  }

  method GraphEdges(nodes: seq<Node>) returns (edges: seq<Edge>)
    ensures (set e | e in edges) == Connections(nodes)
  {
    edges := [];
    for n := 0 to |nodes|
      invariant (set e | e in edges) == Connections(nodes[..n])
    {
      var refs := References(nodes[n]);
      ghost var before := edges;
      for k := 0 to |refs|
        invariant forall e :: e in edges <==> e in before || (e.to == nodes[n].id && e.from in refs[..k])
      {
        edges := edges + [Edge(refs[k], nodes[n].id)];
      }
      ConnectionsOfNext(nodes, n);
      assert forall e :: e in edges <==> e in before || (e.to == nodes[n].id && e.from in refs);
    }
    assert nodes[..|nodes|] == nodes;
  }

  lemma ConnectionFrom(nodes: seq<Node>, e: Edge)
    ensures e in Connections(nodes)
        <==> exists i :: 0 <= i < |nodes| && e.to == nodes[i].id && e.from in References(nodes[i])
  {
  }

  lemma ConnectionsOfNext(nodes: seq<Node>, n: nat)
    requires n < |nodes|
    ensures Connections(nodes[..n + 1]) ==
            Connections(nodes[..n]) + set r | r in References(nodes[n]) :: Edge(r, nodes[n].id)
  {
    hide References;
    assert nodes[..n + 1][n] == nodes[n];
    forall i | 0 <= i < n ensures nodes[..n + 1][i] == nodes[i] && nodes[..n][i] == nodes[i] { }
    forall e ensures e in Connections(nodes[..n + 1])
                     <==> e in Connections(nodes[..n]) || (e.to == nodes[n].id && e.from in References(nodes[n]))
    {
      ConnectionFrom(nodes[..n], e);
      ConnectionFrom(nodes[..n + 1], e);
    }
  }

  // ----- paths and cycles -----

  ghost predicate IsPath(edges: set<Edge>, p: seq<Id>) {
    |p| > 0 && forall i :: 0 <= i < |p| - 1 ==> Edge(p[i], p[i + 1]) in edges
  }

  ghost predicate Joins(edges: set<Edge>, p: seq<Id>, a: Id, b: Id) {
    IsPath(edges, p) && p[0] == a && p[|p| - 1] == b
  }

  // b can be reached from a in zero or more steps
  ghost predicate Reaches(edges: set<Edge>, a: Id, b: Id) {
    exists p :: Joins(edges, p, a, b)
  }

  // b can be reached from a in one or more steps
  ghost predicate ReachesInSteps(edges: set<Edge>, a: Id, b: Id) {
    exists p :: |p| >= 2 && Joins(edges, p, a, b)
  }

  ghost predicate CycleReachable(edges: set<Edge>, a: Id) {
    exists c :: Reaches(edges, a, c) && ReachesInSteps(edges, c, c)
  }

  ghost predicate Closed(edges: set<Edge>, s: set<Id>) {
    forall a, b :: a in s && Edge(a, b) in edges ==> b in s
  }

  lemma ReachesSelf(edges: set<Edge>, a: Id)
    ensures Reaches(edges, a, a)
  {
    assert Joins(edges, [a], a, a);
  }

  lemma StepThenReaches(edges: set<Edge>, a: Id, b: Id, c: Id)
    requires Edge(a, b) in edges && Reaches(edges, b, c)
    ensures ReachesInSteps(edges, a, c) && Reaches(edges, a, c)
  {
    var p :| Joins(edges, p, b, c);
    assert Joins(edges, [a] + p, a, c);
  }

  lemma ReachesThenStep(edges: set<Edge>, a: Id, b: Id, c: Id)
    requires Reaches(edges, a, b) && Edge(b, c) in edges
    ensures ReachesInSteps(edges, a, c)
  {
    var p :| Joins(edges, p, a, b);
    assert Joins(edges, p + [c], a, c);
  }

  lemma ClosedPath(edges: set<Edge>, s: set<Id>, p: seq<Id>)
    requires Closed(edges, s) && IsPath(edges, p) && p[0] in s
    ensures p[|p| - 1] in s
  {
    if |p| > 1 {
      assert Edge(p[0], p[1]) in edges;
      assert IsPath(edges, p[1..]) by {
        forall i | 0 <= i < |p[1..]| - 1 ensures Edge(p[1..][i], p[1..][i + 1]) in edges {
          assert Edge(p[i + 1], p[i + 1 + 1]) in edges;
        }
      }
      ClosedPath(edges, s, p[1..]);
    }
  }

  // No path leaves a closed set.
  lemma ClosedReaches(edges: set<Edge>, s: set<Id>, a: Id, b: Id)
    requires Closed(edges, s) && a in s && Reaches(edges, a, b)
    ensures b in s
  {
    var p :| Joins(edges, p, a, b);
    ClosedPath(edges, s, p);
  }

  // A cycle through a node has a first step to a successor that leads back.
  lemma CycleFirstStep(edges: set<Edge>, a: Id) returns (b: Id)
    requires ReachesInSteps(edges, a, a)
    ensures Edge(a, b) in edges && Reaches(edges, b, a)
  {
    var p :| |p| >= 2 && Joins(edges, p, a, a);
    b := p[1];
    assert Edge(p[0], p[0 + 1]) in edges;
    assert Joins(edges, p[1..], b, a) by {
      forall i | 0 <= i < |p[1..]| - 1 ensures Edge(p[1..][i], p[1..][i + 1]) in edges {
        assert Edge(p[i + 1], p[i + 1 + 1]) in edges;
      }
    }
  }

  // ----- the search -----

  class CycleSearch {
    const graph: Graph
    ghost const edges: set<Edge>
    ghost const universe: set<Id>
    var visiting: set<Id>
    var visited: set<Id>

    constructor (graph: Graph, ghost edges: set<Edge>, ghost universe: set<Id>)
      requires Represents(graph, edges) && Closed(edges, universe)
      ensures this.graph == graph && this.edges == edges && this.universe == universe
      ensures visiting == {} && visited == {} && Valid()
    {
      this.graph := graph;
      this.edges := edges;
      this.universe := universe;
      visiting, visited := {}, {};
    }

    ghost function Finished(): set<Id>
      reads this
    {
      visited - visiting
    }

    // Nodes still being visited are on the current path; finished nodes are
    // closed under successors and lie on no cycle.
    ghost predicate Valid()
      reads this
    {
      && Represents(graph, edges)
      && Closed(edges, universe)
      && visiting <= visited <= universe
      && Closed(edges, Finished())
      && forall v :: v in Finished() ==> !ReachesInSteps(edges, v, v)
    }

    method ReachesCycle(node: Id) returns (found: bool)
      requires Valid() && node in universe
      requires forall v :: v in visiting ==> ReachesInSteps(edges, v, node)
      modifies this
      ensures found ==> CycleReachable(edges, node)
      ensures !found ==> Valid() && visiting == old(visiting) && old(visited) <= visited
      ensures !found ==> node in Finished() && !CycleReachable(edges, node)
      decreases universe - visited
    {
      ReachesSelf(edges, node);
      if node in visiting { return true; }
      if node in visited {
        NoCycleFromFinished(node);
        return false;
      }
      ghost var outer := visiting;
      visited := visited + {node};
      visiting := visiting + {node};
      assert Finished() == old(Finished());
      if node in graph {
        var neighbors := graph[node];
        for k := 0 to |neighbors|
          invariant Valid() && visiting == outer + {node} && old(visited) + {node} <= visited
          invariant forall j :: 0 <= j < k ==> neighbors[j] in Finished()
        {
          var next := neighbors[k];
          assert Edge(node, next) in edges;
          forall v | v in visiting ensures ReachesInSteps(edges, v, next) {
            if v != node {
              var p :| |p| >= 2 && Joins(edges, p, v, node);
            }
            ReachesThenStep(edges, v, node, next);
          }
          found := ReachesCycle(next);
          if found {
            ghost var c :| Reaches(edges, next, c) && ReachesInSteps(edges, c, c);
            StepThenReaches(edges, node, next, c);
            return true;
          }
        }
      }
      if ReachesInSteps(edges, node, node) {
        var b := CycleFirstStep(edges, node);
        ClosedReaches(edges, Finished(), b, node);
      }
      ghost var finished := Finished();
      visiting := visiting - {node};
      assert Finished() == finished + {node};
      NoCycleFromFinished(node);
      return false;
    }

    lemma NoCycleFromFinished(node: Id)
      requires Valid() && node in Finished()
      ensures !CycleReachable(edges, node)
    {
      forall c | Reaches(edges, node, c) ensures !ReachesInSteps(edges, c, c) {
        ClosedReaches(edges, Finished(), node, c);
      }
    }
  }

  // ----- the network check -----

  ghost predicate Represents(graph: Graph, edges: set<Edge>) {
    forall a, b :: Edge(a, b) in edges <==> a in graph && b in graph[a]
  }

  // Connections lead from some node back to itself.
  ghost predicate Feedback(nodes: seq<Node>) {
    exists a :: ReachesInSteps(Connections(nodes), a, a)
  }

  ghost predicate LeadsIntoFeedback(nodes: seq<Node>, k: nat) {
    k < |nodes| && CycleReachable(Connections(nodes), nodes[k].id)
  }

  method BuildGraph(edges: seq<Edge>) returns (graph: Graph)
    ensures Represents(graph, set e | e in edges)
  {
    graph := map[];
    for k := 0 to |edges|
      invariant forall a, b :: Edge(a, b) in edges[..k] <==> a in graph && b in graph[a]
    {
      var e := edges[k];
      var known := if e.from in graph then graph[e.from] else [];
      graph := graph[e.from := known + [e.to]];
      assert edges[..k + 1] == edges[..k] + [e];
    }
    assert edges[..|edges|] == edges;
  }

  // There is feedback exactly when some declared node leads into a cycle: every
  // node on one is the target of a connection, hence declared.
  lemma FeedbackIsDeclared(nodes: seq<Node>)
    ensures Feedback(nodes) <==> exists k: nat :: LeadsIntoFeedback(nodes, k)
  {
    var edges := Connections(nodes);
    if Feedback(nodes) {
      var a :| ReachesInSteps(edges, a, a);
      var p :| |p| >= 2 && Joins(edges, p, a, a);
      assert Edge(p[|p| - 2], p[|p| - 2 + 1]) in edges;
      var k :| 0 <= k < |nodes| && nodes[k].id == a;
      ReachesSelf(edges, a);
      assert LeadsIntoFeedback(nodes, k);
    }
    if k: nat :| LeadsIntoFeedback(nodes, k) {
      var c :| Reaches(edges, nodes[k].id, c) && ReachesInSteps(edges, c, c);
    }
  }

  // An error is reported exactly when the network has a feedback cycle, and it
  // names the first declared node that leads into one.
  method ValidateFbdNetwork(nodes: seq<Node>) returns (error: Option<nat>)
    ensures error.Some? <==> Feedback(nodes)
    ensures error.Some? ==> LeadsIntoFeedback(nodes, error.value)
    ensures error.Some? ==> forall k: nat :: k < error.value ==> !LeadsIntoFeedback(nodes, k)
  {
    var edges := GraphEdges(nodes);
    var graph := BuildGraph(edges);
    ghost var universe := (set e | e in edges :: e.to) + (set k | 0 <= k < |nodes| :: nodes[k].id);
    for n := 0 to |nodes|
      invariant forall k: nat :: k < n ==> !LeadsIntoFeedback(nodes, k)
    {
      var search := new CycleSearch(graph, Connections(nodes), universe);
      var found := search.ReachesCycle(nodes[n].id);
      if found { return Some(n); }
    }
    FeedbackIsDeclared(nodes);
    return None;
  }
}
