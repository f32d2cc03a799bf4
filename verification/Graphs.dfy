/** Finite directed graphs over names: paths, strict reachability, acyclicity.
    Shared by the component system and the `$ref` resolver. */
module Graphs {

  /** Component and schema names are only ever compared. */
  datatype Name = Name(text: string)

  /** Adjacency: `g[a]` holds every `b` with an edge from `a` to `b`. */
  type Graph = map<Name, set<Name>>

  ghost predicate Edge(g: Graph, a: Name, b: Name) {
    a in g && b in g[a]
  }

  ghost predicate Path(g: Graph, p: seq<Name>) {
    |p| >= 1 && forall i, j :: 0 <= i < j < |p| && j == i + 1 ==> Edge(g, p[i], p[j])
  }

  ghost predicate PathBetween(g: Graph, p: seq<Name>, a: Name, b: Name) {
    Path(g, p) && p[0] == a && p[|p| - 1] == b
  }

  /** Reflexive-transitive closure. */
  ghost predicate Reaches(g: Graph, a: Name, b: Name) {
    exists p :: PathBetween(g, p, a, b)
  }

  /** Strict transitive closure: at least one edge. */
  ghost predicate DependsOn(g: Graph, a: Name, b: Name) {
    exists p :: |p| >= 2 && PathBetween(g, p, a, b)
  }

  ghost predicate Acyclic(g: Graph) {
    forall a :: !DependsOn(g, a, a)
  }

  ghost predicate Converse(down: Graph, up: Graph) {
    forall a, b :: Edge(down, a, b) <==> Edge(up, b, a)
  }

  /** Every name mentioned is a node. */
  ghost predicate OverNodes(g: Graph, nodes: set<Name>) {
    g.Keys == nodes && forall a :: a in g ==> g[a] <= nodes
  }

  ghost predicate NoDuplicates(s: seq<Name>) {
    forall i, j :: 0 <= i < j < |s| ==> s[i] != s[j]
  }

  function AddEdge(g: Graph, a: Name, b: Name): Graph
    requires a in g
  {
    g[a := g[a] + {b}]
  }

  lemma PathJoin(g: Graph, p: seq<Name>, q: seq<Name>)
    requires Path(g, p) && Path(g, q) && p[|p| - 1] == q[0]
    ensures PathBetween(g, p + q[1..], p[0], q[|q| - 1])
  {
    var r := p + q[1..];
    forall i, j | 0 <= i < j < |r| && j == i + 1 ensures Edge(g, r[i], r[j]) {
      if i >= |p| - 1 {
        assert r[i] == q[i - (|p| - 1)] && r[i + 1] == q[i + 1 - (|p| - 1)];
      }
    }
  }

  lemma SubPath(g: Graph, p: seq<Name>, i: nat, j: nat)
    requires Path(g, p) && i <= j < |p|
    ensures PathBetween(g, p[i..j + 1], p[i], p[j])
  {
    var q := p[i..j + 1];
    forall k, j | 0 <= k < j < |q| && j == k + 1 ensures Edge(g, q[k], q[j]) {
      assert q[k] == p[i + k] && q[k + 1] == p[i + k + 1];
    }
  }

  lemma EdgePath(g: Graph, a: Name, b: Name)
    requires Edge(g, a, b)
    ensures PathBetween(g, [a, b], a, b) && DependsOn(g, a, b)
  {
    var p := [a, b];
    assert PathBetween(g, p, a, b) && |p| >= 2;
  }

  lemma EdgeThenReaches(g: Graph, a: Name, b: Name, c: Name)
    requires Edge(g, a, b) && Reaches(g, b, c)
    ensures DependsOn(g, a, c)
  {
    var q :| PathBetween(g, q, b, c);
    EdgePath(g, a, b);
    PathJoin(g, [a, b], q);
    assert |[a, b] + q[1..]| >= 2;
  }

  /** A walk that starts in a successor-closed set stays in it. */
  lemma {:induction false} ClosedKeepsPath(g: Graph, s: set<Name>, p: seq<Name>, k: nat)
    requires Path(g, p) && p[0] in s && k < |p|
    requires forall a :: a in s && a in g ==> g[a] <= s
    ensures p[k] in s
  {
    if k > 0 {
      ClosedKeepsPath(g, s, p, k - 1);
      assert Edge(g, p[k - 1], p[k - 1 + 1]);
    }
  }

  lemma ReachesSplit(g: Graph, a: Name, b: Name)
    ensures Reaches(g, a, b) <==> a == b || DependsOn(g, a, b)
  {
    if Reaches(g, a, b) && a != b {
      var p :| PathBetween(g, p, a, b);
      assert |p| >= 2;
    }
    if DependsOn(g, a, b) {
      var p :| |p| >= 2 && PathBetween(g, p, a, b);
    }
    assert PathBetween(g, [a], a, a);
  }

  lemma ClosedKeepsReach(g: Graph, s: set<Name>, a: Name, b: Name)
    requires a in s && Reaches(g, a, b)
    requires forall x :: x in s && x in g ==> g[x] <= s
    ensures b in s
  {
    var p :| PathBetween(g, p, a, b);
    ClosedKeepsPath(g, s, p, |p| - 1);
  }

  lemma NoEdgesAcyclic(g: Graph)
    requires forall a :: a in g ==> g[a] == {}
    ensures Acyclic(g)
  {
    forall a ensures !DependsOn(g, a, a) {
      forall p | |p| >= 2 ensures !PathBetween(g, p, a, a) {
        assert !Edge(g, p[0], p[0 + 1]);
      }
    }
  }

  function Reversed(p: seq<Name>): (r: seq<Name>)
    ensures |r| == |p| && forall i :: 0 <= i < |p| ==> r[i] == p[|p| - 1 - i]
  {
    if p == [] then [] else Reversed(p[1..]) + [p[0]]
  }

  lemma ReversedPath(down: Graph, up: Graph, p: seq<Name>)
    requires Converse(down, up) && Path(up, p)
    ensures PathBetween(down, Reversed(p), p[|p| - 1], p[0])
  {
    var r := Reversed(p);
    forall i, j | 0 <= i < j < |r| && j == i + 1 ensures Edge(down, r[i], r[j]) {
      var k := |p| - 2 - i;
      assert Edge(up, p[k], p[k + 1]);
    }
  }

  lemma ConverseReaches(down: Graph, up: Graph, a: Name, b: Name)
    requires Converse(down, up) && Reaches(up, a, b)
    ensures Reaches(down, b, a)
  {
    var p :| PathBetween(up, p, a, b);
    ReversedPath(down, up, p);
  }

  lemma ConverseDependsOn(down: Graph, up: Graph, a: Name, b: Name)
    requires Converse(down, up) && DependsOn(up, a, b)
    ensures DependsOn(down, b, a)
  {
    var p :| |p| >= 2 && PathBetween(up, p, a, b);
    ReversedPath(down, up, p);
    assert |Reversed(p)| >= 2;
  }

  lemma ConverseAcyclic(down: Graph, up: Graph)
    requires Converse(down, up) && Acyclic(down)
    ensures Acyclic(up)
  {
    forall a ensures !DependsOn(up, a, a) {
      if DependsOn(up, a, a) { ConverseDependsOn(down, up, a, a); }
    }
  }

  /** Only the new edge can close a cycle, and only if its head already reached its tail. */
  lemma AddEdgeAcyclic(g: Graph, a: Name, b: Name)
    requires a in g && Acyclic(g) && !Reaches(g, b, a)
    ensures Acyclic(AddEdge(g, a, b))
  {
    var h := AddEdge(g, a, b);
    forall x ensures !DependsOn(h, x, x) {
      if DependsOn(h, x, x) {
        NewCycleUsesEdge(g, a, b, x);
        assert false;
      }
    }
  }

  lemma NewCycleUsesEdge(g: Graph, a: Name, b: Name, x: Name)
    requires a in g && DependsOn(AddEdge(g, a, b), x, x)
    ensures DependsOn(g, x, x) || Reaches(g, b, a)
  {
    var h := AddEdge(g, a, b);
    var p :| |p| >= 2 && PathBetween(h, p, x, x);
    if Path(g, p) {
      assert PathBetween(g, p, x, x);
    } else {
      var i :| 0 <= i < |p| - 1 && !Edge(g, p[i], p[i + 1]);
      assert Edge(h, p[i], p[i + 1]);
      SubPath(h, p, i + 1, |p| - 1);
      SubPath(h, p, 0, i);
      PathJoin(h, p[i + 1..|p| - 1 + 1], p[0..i + 1]);
      OldPathToTail(g, a, b, p[i + 1..|p| - 1 + 1] + p[0..i + 1][1..]);
    }
  }

  /** A walk from `b` to `a` in the extended graph has an initial part, already in the old one, that reaches `a`. */
  lemma OldPathToTail(g: Graph, a: Name, b: Name, q: seq<Name>)
    requires a in g && PathBetween(AddEdge(g, a, b), q, b, a)
    ensures Reaches(g, b, a)
  {
    if Path(g, q) {
      assert PathBetween(g, q, b, a);
    } else {
      var i := FirstNewEdge(g, a, b, q);
      var r := q[..i + 1];
      assert PathBetween(g, r, b, a);
    }
  }

  lemma {:induction false} FirstNewEdge(g: Graph, a: Name, b: Name, q: seq<Name>) returns (i: nat)
    requires a in g && Path(AddEdge(g, a, b), q) && !Path(g, q)
    ensures i < |q| - 1 && q[i] == a && Path(g, q[..i + 1])
  {
    var front := q[..|q| - 1];
    forall k, j | 0 <= k < j < |front| && j == k + 1 ensures Edge(AddEdge(g, a, b), front[k], front[j]) {
      assert Edge(AddEdge(g, a, b), q[k], q[k + 1]);
    }
    if Path(g, front) {
      i := |q| - 2;
      assert q[..i + 1] == front;
      assert Edge(AddEdge(g, a, b), q[i], q[i + 1]);
    } else {
      i := FirstNewEdge(g, a, b, front);
      assert q[..i + 1] == front[..i + 1];
    }
  }

  lemma AddEdgeClosesCycle(g: Graph, a: Name, b: Name)
    requires a in g && Reaches(g, b, a)
    ensures !Acyclic(AddEdge(g, a, b))
  {
    var h := AddEdge(g, a, b);
    var p :| PathBetween(g, p, b, a);
    forall i, j | 0 <= i < j < |p| && j == i + 1 ensures Edge(h, p[i], p[j]) {
      assert Edge(g, p[i], p[i + 1]);
    }
    assert PathBetween(h, p, b, a);
    EdgeThenReaches(h, a, b, a);
  }

  /** In an acyclic graph, a non-empty finite set has a member with no successor inside the set. */
  lemma HasSink(g: Graph, s: set<Name>) returns (x: Name)
    requires Acyclic(g) && s != {}
    ensures x in s && forall y :: y in s ==> !Edge(g, x, y)
  {
    x :| x in s;
    if forall x :: x in s ==> HasNext(g, s, x) {
      EndlessMeansCyclic(g, s);
      assert false;
    } else {
      x :| x in s && !HasNext(g, s, x);
    }
  }

  ghost predicate HasNext(g: Graph, s: set<Name>, x: Name) {
    exists y :: y in s && Edge(g, x, y)
  }

  lemma EndlessMeansCyclic(g: Graph, s: set<Name>)
    requires s != {} && forall x :: x in s ==> HasNext(g, s, x)
    ensures !Acyclic(g)
  {
    var start :| start in s;
    var p := LongWalk(g, s, start, |s| + 1);
    var i, j := Repeats(p, s);
    SubPath(g, p, i, j);
    assert |p[i..j + 1]| >= 2;
    assert DependsOn(g, p[i], p[i]);
  }

  lemma {:induction false} LongWalk(g: Graph, s: set<Name>, start: Name, n: nat) returns (p: seq<Name>)
    requires start in s && n >= 1
    requires forall x :: x in s ==> HasNext(g, s, x)
    ensures |p| == n && p[0] == start && Path(g, p) && forall i :: 0 <= i < |p| ==> p[i] in s
    decreases n
  {
    if n == 1 {
      p := [start];
    } else {
      var y :| y in s && Edge(g, start, y);
      var q := LongWalk(g, s, y, n - 1);
      p := [start] + q;
      forall i, j | 0 <= i < j < |p| && j == i + 1 ensures Edge(g, p[i], p[j]) {
        if i > 0 { assert p[i] == q[i - 1] && p[i + 1] == q[i - 1 + 1]; }
      }
    }
  }

  /** Pigeonhole. */
  lemma {:induction false} Repeats(p: seq<Name>, s: set<Name>) returns (i: nat, j: nat)
    requires |p| > |s| && forall k :: 0 <= k < |p| ==> p[k] in s
    ensures i < j < |p| && p[i] == p[j]
  {
    var last := |p| - 1;
    if k :| 0 <= k < last && p[k] == p[last] {
      i, j := k, last;
    } else {
      i, j := Repeats(p[..last], s - {p[last]});
    }
  }

  // ---- graphs with the same edges ----------------------------------------

  ghost predicate SameEdges(g: Graph, h: Graph) { forall a, b :: Edge(g, a, b) <==> Edge(h, a, b) }

  lemma SamePath(g: Graph, h: Graph, p: seq<Name>)
    requires SameEdges(g, h)
    ensures Path(g, p) <==> Path(h, p)
  {
    hide Edge;
  }

  lemma SameDependsOn(g: Graph, h: Graph, a: Name, b: Name)
    requires SameEdges(g, h)
    ensures DependsOn(g, a, b) <==> DependsOn(h, a, b)
  {
    hide Path, SameEdges;
    if p :| |p| >= 2 && PathBetween(g, p, a, b) { SamePath(g, h, p); }
    if p :| |p| >= 2 && PathBetween(h, p, a, b) { SamePath(g, h, p); }
  }
}
