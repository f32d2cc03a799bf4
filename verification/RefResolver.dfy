/** `sort_dfs` and `RefResolver.sort_schemas`: order schemas so that every counted `$ref` target
    comes before the schema that mentions it, and point every Ref at what its chain leads to. */
module RefResolver {
  import opened Graphs

  type EdgeLists = map<Name, seq<Name>>

  /** `edges` is a defaultdict: a missing node has no successors. */
  function Sub(edges: EdgeLists, n: Name): seq<Name> {
    if n in edges then edges[n] else []
  }

  ghost function AsGraph(edges: EdgeLists): Graph {
    map n | n in edges :: set x | x in edges[n]
  }

  ghost function Elems(s: seq<Name>): set<Name> {
    set x | x in s
  }

  /** Every edge target stands strictly before its source, so in particular it is present. */
  ghost predicate TargetsFirst(edges: EdgeLists, s: seq<Name>) {
    forall i, x :: 0 <= i < |s| && Edge(AsGraph(edges), s[i], x) ==> x in s[..i]
  }

  ghost predicate Reached(edges: EdgeLists, nodes: set<Name>, x: Name) {
    exists n :: n in nodes && Reaches(AsGraph(edges), n, x)
  }

  ghost predicate CycleFrom(edges: EdgeLists, n: Name) {
    exists c :: Reaches(AsGraph(edges), n, c) && DependsOn(AsGraph(edges), c, c)
  }

  /** The list in the error message walks along edges and bites its own tail. */
  ghost predicate ClosesOnItself(edges: EdgeLists, trail: seq<Name>, node: Name) {
    Path(AsGraph(edges), trail) && Edge(AsGraph(edges), trail[|trail| - 1], node) && node in trail
  }

  lemma ClosedTrailIsCycle(edges: EdgeLists, trail: seq<Name>, node: Name)
    requires ClosesOnItself(edges, trail, node)
    ensures CycleFrom(edges, trail[0])
  {
    var g := AsGraph(edges);
    var k :| 0 <= k < |trail| && trail[k] == node;
    SubPath(g, trail, 0, k);
    assert Reaches(g, trail[0], node);
    SubPath(g, trail, k, |trail| - 1);
    EdgePath(g, trail[|trail| - 1], node);
    PathJoin(g, trail[k..|trail| - 1 + 1], [trail[|trail| - 1], node]);
    var loop := trail[k..|trail| - 1 + 1] + [trail[|trail| - 1], node][1..];
    assert |loop| >= 2 && PathBetween(g, loop, node, node);
  }

  /** Positions drop along every walk that stays in a list with targets first. */
  lemma {:induction false} WalkGoesBack(edges: EdgeLists, s: seq<Name>, p: seq<Name>, k: nat, at: nat) returns (to: nat)
    requires TargetsFirst(edges, s) && Path(AsGraph(edges), p) && k < |p|
    requires at < |s| && s[at] == p[0]
    ensures to <= at && s[to] == p[k] && (k > 0 ==> to < at)
  {
    if k == 0 {
      to := at;
    } else {
      var prev := WalkGoesBack(edges, s, p, k - 1, at);
      assert Edge(AsGraph(edges), p[k - 1], p[k]);
      assert p[k] in s[..prev];
      to :| 0 <= to < prev && s[..prev][to] == p[k];
    }
  }

  lemma {:induction false} NoCycleThrough(edges: EdgeLists, s: seq<Name>, c: Name, at: nat)
    requires TargetsFirst(edges, s) && at < |s| && s[at] == c
    requires DependsOn(AsGraph(edges), c, c)
    ensures false
    decreases at
  {
    var p :| |p| >= 2 && PathBetween(AsGraph(edges), p, c, c);
    var earlier := WalkGoesBack(edges, s, p, |p| - 1, at);
    NoCycleThrough(edges, s, c, earlier);
  }

  lemma SortedHasNoCycle(edges: EdgeLists, s: seq<Name>, n: Name)
    requires TargetsFirst(edges, s) && n in s
    ensures !CycleFrom(edges, n)
    ensures forall x :: Reaches(AsGraph(edges), n, x) ==> x in s
  {
    var at :| 0 <= at < |s| && s[at] == n;
    forall x | Reaches(AsGraph(edges), n, x) ensures x in s && !DependsOn(AsGraph(edges), x, x) {
      var p :| PathBetween(AsGraph(edges), p, n, x);
      var to := WalkGoesBack(edges, s, p, |p| - 1, at);
      if DependsOn(AsGraph(edges), x, x) { NoCycleThrough(edges, s, x, to); }
    }
  }

  datatype SortResult = Sorted(order: seq<Name>) | CycleError(trail: seq<Name>, node: Name)

  ghost predicate Closed(edges: EdgeLists, universe: set<Name>) {
    forall n, x :: n in universe && x in Sub(edges, n) ==> x in universe
  }

  /** Visited nodes are finished (in `sorted`) or on the current path (in `visiting`), never both. */
  ghost predicate Consistent(edges: EdgeLists, visited: set<Name>, visiting: seq<Name>, sorted: seq<Name>) {
    && (forall n :: n in visited <==> n in sorted || n in visiting)
    && (forall n :: n in sorted ==> n !in visiting)
    && NoDuplicates(sorted) && NoDuplicates(visiting)
    && TargetsFirst(edges, sorted)
    && (visiting != [] ==> Path(AsGraph(edges), visiting))
  }

  lemma EnterNode(edges: EdgeLists, visited: set<Name>, visiting: seq<Name>, sorted: seq<Name>, node: Name)
    requires Consistent(edges, visited, visiting, sorted) && node !in visited
    requires visiting != [] ==> Edge(AsGraph(edges), visiting[|visiting| - 1], node)
    ensures Consistent(edges, visited + {node}, visiting + [node], sorted)
  {
  }

  /** What the two early exits of `do_node` rely on. */
  lemma NodeStatus(edges: EdgeLists, visited: set<Name>, visiting: seq<Name>, sorted: seq<Name>, node: Name)
    requires Consistent(edges, visited, visiting, sorted)
    requires visiting != [] ==> Edge(AsGraph(edges), visiting[|visiting| - 1], node)
    ensures node in visiting ==> ClosesOnItself(edges, visiting, node)
    ensures node in visited && node !in visiting ==> node in Elems(sorted)
  {
  }

  lemma PathFront(g: Graph, front: seq<Name>, node: Name)
    requires Path(g, front + [node]) && front != []
    ensures Path(g, front)
  {
    SubPath(g, front + [node], 0, |front| - 1);
    assert (front + [node])[0..|front| - 1 + 1] == front;
  }

  lemma DistinctFront(front: seq<Name>, node: Name)
    requires NoDuplicates(front + [node])
    ensures NoDuplicates(front) && node !in front
  {
    var path := front + [node];
    forall k | 0 <= k < |front| ensures front[k] != node {
      assert path[k] != path[|front|];
    }
    forall i, j | 0 <= i < j < |front| ensures front[i] != front[j] {
      assert path[i] != path[j];
    }
  }

  lemma DistinctBack(s: seq<Name>, node: Name)
    requires NoDuplicates(s) && node !in s
    ensures NoDuplicates(s + [node])
  {
  }

  lemma LeaveNode(edges: EdgeLists, visited: set<Name>, visiting: seq<Name>, sorted: seq<Name>, node: Name)
    requires Consistent(edges, visited, visiting + [node], sorted)
    requires forall x :: x in Sub(edges, node) ==> x in Elems(sorted)
    ensures Consistent(edges, visited, visiting, sorted + [node])
    ensures Elems(sorted + [node]) == Elems(sorted) + {node}
  {
    hide TargetsFirst, NoDuplicates, Path, AsGraph;
    FinishNode(edges, sorted, node);
    DistinctFront(visiting, node);
    assert node in visiting + [node];
    DistinctBack(sorted, node);
    if visiting != [] {
      PathFront(AsGraph(edges), visiting, node);
    }
  }

  lemma ListedEdge(edges: EdgeLists, n: Name, x: Name)
    requires x in Sub(edges, n)
    ensures Edge(AsGraph(edges), n, x)
  {
  }

  class DfsSorter {
    const edges: EdgeLists
    ghost const universe: set<Name>
    var visited: set<Name>
    var visiting: seq<Name>
    var sorted: seq<Name>

    ghost predicate Valid()
      reads this
    {
      && Closed(edges, universe)
      && visited <= universe
      && Consistent(edges, visited, visiting, sorted)
    }

    constructor (edges: EdgeLists, ghost universe: set<Name>)
      requires Closed(edges, universe)
      ensures Valid() && this.edges == edges && this.universe == universe
      ensures visited == {} && visiting == [] && sorted == []
    {
      this.edges := edges;
      this.universe := universe;
      visited, visiting, sorted := {}, [], [];
    }

    /** The nested `do_node`. `r` is the raised error, if any. */
    method DoNode(node: Name) returns (r: SortResult)
      requires Valid() && node in universe
      requires visiting != [] ==> Edge(AsGraph(edges), visiting[|visiting| - 1], node)
      modifies this
      ensures r.Sorted? ==> Valid() && visiting == old(visiting) && node in Elems(sorted)
      ensures r.Sorted? ==> old(visited) <= visited && old(Elems(sorted)) <= Elems(sorted)
      ensures r.Sorted? ==> forall x :: x in Elems(sorted) - old(Elems(sorted)) ==> Reaches(AsGraph(edges), node, x)
      ensures r.CycleError? ==> ClosesOnItself(edges, r.trail, r.node) && r.trail[0] == (old(visiting) + [node])[0]
      decreases universe - visited
    {
      hide TargetsFirst, NoDuplicates, Reaches, Path, Consistent, ClosesOnItself, AsGraph, Edge, Elems;
      ghost var g := AsGraph(edges);
      NodeStatus(edges, visited, visiting, sorted, node);
      if node in visiting {
        return CycleError(visiting, node);
      }
      if node in visited {
        return Sorted(sorted);
      }
      EnterNode(edges, visited, visiting, sorted, node);
      visited := visited + {node};
      visiting := visiting + [node];
      ReachesSplit(g, node, node);
      var subs := Sub(edges, node);
      var i := 0;
      while i < |subs|
        invariant 0 <= i <= |subs|
        invariant Valid() && visiting == old(visiting) + [node]
        invariant old(visited) + {node} <= visited && old(Elems(sorted)) <= Elems(sorted)
        invariant forall k :: 0 <= k < i ==> subs[k] in Elems(sorted)
        invariant forall x :: x in Elems(sorted) - old(Elems(sorted)) ==> Reaches(g, node, x)
      {
        ghost var before := Elems(sorted);
        ListedEdge(edges, node, subs[i]);
        r := DoNode(subs[i]);
        if r.CycleError? {
          return;
        }
        forall x | x in Elems(sorted) - old(Elems(sorted)) ensures Reaches(g, node, x) {
          if x !in before {
            EdgeThenReaches(g, node, subs[i], x);
            ReachesSplit(g, node, x);
          }
        }
        i := i + 1;
      }
      LeaveNode(edges, visited, old(visiting), sorted, node);
      visiting := visiting[..|visiting| - 1];
      sorted := sorted + [node];
      assert visiting == old(visiting);
      r := Sorted(sorted);
    }

    /** Roots may be taken in any order; the source takes them sorted. */
    method Run(nodes: set<Name>) returns (r: SortResult)
      requires Valid() && visited == {} && visiting == [] && sorted == [] && nodes <= universe
      modifies this
      ensures r.CycleError? <==> exists n :: n in nodes && CycleFrom(edges, n)
      ensures r.CycleError? ==> ClosesOnItself(edges, r.trail, r.node) && r.trail[0] in nodes
      ensures r.Sorted? ==> NoDuplicates(r.order) && TargetsFirst(edges, r.order)
      ensures r.Sorted? ==> forall x :: x in r.order <==> Reached(edges, nodes, x)
    {
      ghost var g := AsGraph(edges);
      var todo := nodes;
      while todo != {}
        invariant todo <= nodes
        invariant Valid() && visiting == []
        invariant forall n :: n in nodes - todo ==> n in sorted
        invariant forall x :: x in sorted ==> Reached(edges, nodes, x)
        decreases todo
      {
        var node :| node in todo;
        ghost var before := sorted;
        r := DoNode(node);
        if r.CycleError? {
          assert r.trail[0] == node;
          ClosedTrailIsCycle(edges, r.trail, r.node);
          return;
        }
        forall x | x in sorted ensures Reached(edges, nodes, x) {
          if x !in before { assert Reaches(g, node, x); }
        }
        todo := todo - {node};
      }
      r := Sorted(sorted);
      forall n | n in nodes ensures !CycleFrom(edges, n) && forall x :: Reaches(g, n, x) ==> x in sorted {
        SortedHasNoCycle(edges, sorted, n);
      }
    }
  }

  lemma FinishNode(edges: EdgeLists, s: seq<Name>, node: Name)
    requires TargetsFirst(edges, s) && forall x :: x in Sub(edges, node) ==> x in s
    ensures TargetsFirst(edges, s + [node])
  {
    var t := s + [node];
    forall i, x | 0 <= i < |t| && Edge(AsGraph(edges), t[i], x) ensures x in t[..i] {
      if i < |s| {
        assert t[..i] == s[..i];
      } else {
        assert t[..i] == s;
      }
    }
  }

  ghost function Universe(nodes: set<Name>, edges: EdgeLists): set<Name> {
    nodes + edges.Keys + set n, x | n in edges && x in edges[n] :: x
  }

  /** `sort_dfs`, on every input: it ends, it raises exactly when a cycle is reachable from the given
      nodes, and otherwise lists exactly the reachable nodes once each, targets before sources. */
  method SortDfs(nodes: set<Name>, edges: EdgeLists) returns (r: SortResult)
    ensures r.CycleError? <==> exists n :: n in nodes && CycleFrom(edges, n)
    ensures r.CycleError? ==> ClosesOnItself(edges, r.trail, r.node) && r.trail[0] in nodes
    ensures r.Sorted? ==> NoDuplicates(r.order) && TargetsFirst(edges, r.order)
    ensures r.Sorted? ==> forall x :: x in r.order <==> Reached(edges, nodes, x)
  {
    var sorter := new DfsSorter(edges, Universe(nodes, edges));
    r := sorter.Run(nodes);
  }
}
