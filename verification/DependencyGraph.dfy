/** The dependency bookkeeping of `ComponentContextImpl`: edges are discovered one at a
    time, each is refused when it would close a cycle, and two searches over the two
    mirrored edge sets answer transitive queries. */
module DependencyGraph {
  import opened Graphs

  datatype AddResult = Linked | CircularDependency(chain: seq<Name>)

  datatype Dependencies = NonExistentComponent | Dependencies(names: set<Name>)

  class ComponentContext {
    const components: set<Name>
    var itDependsOn: Graph
    var dependsOnIt: Graph

    ghost predicate Valid()
      reads this
    {
      && Linkable()
      && Acyclic(itDependsOn)
    }

    /** What the searches rely on: the two edge sets mirror each other and stay inside `components`. */
    ghost predicate Linkable()
      reads this
    {
      && OverNodes(itDependsOn, components)
      && OverNodes(dependsOnIt, components)
      && Converse(itDependsOn, dependsOnIt)
    }

    constructor (names: set<Name>)
      ensures Valid() && components == names
      ensures itDependsOn == map n | n in names :: {}
    {
      components := names;
      itDependsOn := map n | n in names :: {};
      dependsOnIt := map n | n in names :: {};
      new;
      NoEdgesAcyclic(itDependsOn);
    }

    /** Depth-first walk from `current` up the dependents, looking for `target`. On success
        `chain` leads from `target` back down to `current` along recorded dependencies; on
        failure every newly handled component has all its dependents handled as well. */
    method FindDependencyPathDfs(current: Name, target: Name, handledBefore: set<Name>)
      returns (found: bool, handled: set<Name>, chain: seq<Name>)
      requires Linkable()
      requires current in components && current !in handledBefore && handledBefore <= components
      ensures handledBefore + {current} <= handled <= components
      ensures found ==> PathBetween(itDependsOn, chain, target, current)
      ensures !found ==> target !in handled - handledBefore
      ensures !found ==> forall x :: x in handled - handledBefore ==> dependsOnIt[x] <= handled
      decreases components - handledBefore
    {
      handled := handledBefore + {current};
      found := current == target;
      chain := [];
      var todo := dependsOnIt[current];
      while todo != {}
        invariant todo <= dependsOnIt[current]
        invariant handledBefore + {current} <= handled <= components
        invariant found && chain == [] ==> current == target
        invariant found && chain != [] ==>
            Path(itDependsOn, chain) && chain[0] == target && Edge(itDependsOn, chain[|chain| - 1], current)
        invariant !found ==> target !in handled - handledBefore && chain == []
        invariant !found ==> dependsOnIt[current] - todo <= handled
        invariant !found ==> forall x :: x in handled - handledBefore && x != current ==> dependsOnIt[x] <= handled
        decreases todo
      {
        var dependent :| dependent in todo;
        todo := todo - {dependent};
        assert Edge(dependsOnIt, current, dependent);
        if !found && dependent !in handled {
          var sub;
          found, handled, sub := FindDependencyPathDfs(dependent, target, handled);
          if found { chain := sub; }
        }
      }
      if found {
        ghost var before := chain;
        chain := chain + [current];
        if before != [] {
          forall i, j | 0 <= i < j < |chain| && j == i + 1 ensures Edge(itDependsOn, chain[i], chain[j]) {
            if i < |before| - 1 { assert Edge(itDependsOn, before[i], before[i + 1]); }
          }
        }
      }
    }

    /** Searches from scratch decide reflexive reachability along dependents. */
    method SearchDependents(from: Name, to: Name) returns (found: bool, chain: seq<Name>)
      requires Linkable() && from in components
      ensures found <==> Reaches(itDependsOn, to, from)
      ensures found ==> PathBetween(itDependsOn, chain, to, from)
    {
      var handled;
      found, handled, chain := FindDependencyPathDfs(from, to, {});
      if !found {
        UnhandledIsUnreachable(itDependsOn, dependsOnIt, handled, from, to);
      }
    }

    /** The chain reported for a refused edge closes up through that very edge. */
    method CheckForDependencyCycle(from: Name, to: Name) returns (r: AddResult)
      requires Linkable() && from in components
      ensures r.Linked? <==> !Reaches(itDependsOn, to, from)
      ensures r.CircularDependency? ==> CycleThrough(itDependsOn, from, to, r.chain)
    {
      var found, chain := SearchDependents(from, to);
      if found {
        r := CircularDependency(chain + [to]);
        forall i, j | 0 <= i < j < |r.chain| - 1 && j == i + 1 ensures Edge(itDependsOn, r.chain[i], r.chain[j]) {
          assert Edge(itDependsOn, chain[i], chain[i + 1]);
        }
      } else {
        r := Linked;
      }
    }

    method AddDependency(dependency: Name, current: Name) returns (r: AddResult)
      requires Valid() && dependency in components && current in components
      modifies this
      ensures Valid()
      ensures r.Linked? <==> Acyclic(AddEdge(old(itDependsOn), current, dependency))
      ensures r.Linked? ==> itDependsOn == AddEdge(old(itDependsOn), current, dependency)
      ensures r.CircularDependency? ==> itDependsOn == old(itDependsOn) && dependsOnIt == old(dependsOnIt)
      ensures r.CircularDependency? ==> CycleThrough(itDependsOn, current, dependency, r.chain)
    {
      if dependency in itDependsOn[current] {
        assert itDependsOn[current] + {dependency} == itDependsOn[current];
        assert AddEdge(itDependsOn, current, dependency) == itDependsOn;
        return Linked;
      }
      r := CheckForDependencyCycle(current, dependency);
      if r.Linked? {
        AddEdgeAcyclic(itDependsOn, current, dependency);
        MirroredEdges(itDependsOn, dependsOnIt, current, dependency);
        itDependsOn := itDependsOn[current := itDependsOn[current] + {dependency}];
        dependsOnIt := dependsOnIt[dependency := dependsOnIt[dependency] + {current}];
      } else {
        AddEdgeClosesCycle(itDependsOn, current, dependency);
      }
    }

    /** Walks dependents upward from `dependency`; answers the strict transitive closure. */
    method HasDependencyOn(component: Name, dependency: Name) returns (r: bool)
      requires Valid()
      ensures r <==> component in components && DependsOn(itDependsOn, component, dependency)
    {
      if component !in components {
        return false;
      }
      if dependency !in components {
        OutsideIsUnreachable(itDependsOn, components, component, dependency);
        return false;
      }
      if component == dependency {
        return false;
      }
      var chain;
      r, chain := SearchDependents(dependency, component);
      ReachesSplit(itDependsOn, component, dependency);
    }

    /** Downward walk collecting everything reachable from `current` outside what was handled before. */
    method FindAllDependenciesImpl(current: Name, handledBefore: set<Name>) returns (handled: set<Name>)
      requires Linkable()
      requires current in components && current !in handledBefore && handledBefore <= components
      ensures handledBefore + {current} <= handled <= components
      ensures forall x :: x in handled - handledBefore ==> itDependsOn[x] <= handled
      ensures forall x :: x in handled - handledBefore ==> Reaches(itDependsOn, current, x)
      decreases components - handledBefore
    {
      handled := handledBefore + {current};
      var todo := itDependsOn[current];
      assert PathBetween(itDependsOn, [current], current, current);
      while todo != {}
        invariant todo <= itDependsOn[current]
        invariant handledBefore + {current} <= handled <= components
        invariant itDependsOn[current] - todo <= handled
        invariant forall x :: x in handled - handledBefore && x != current ==> itDependsOn[x] <= handled
        invariant forall x :: x in handled - handledBefore ==> Reaches(itDependsOn, current, x)
        decreases todo
      {
        var dependency :| dependency in todo;
        todo := todo - {dependency};
        if dependency !in handled {
          ghost var before := handled;
          handled := FindAllDependenciesImpl(dependency, handled);
          forall x | x in handled - before ensures Reaches(itDependsOn, current, x) {
            EdgeThenReaches(itDependsOn, current, dependency, x);
            ReachesSplit(itDependsOn, current, x);
          }
        }
      }
    }

    /** Walks dependencies downward from `component`; the same strict transitive closure. */
    method GetAllDependencies(component: Name) returns (r: Dependencies)
      requires Valid()
      ensures r.Dependencies? <==> component in components
      ensures r.Dependencies? ==> forall d :: d in r.names <==> DependsOn(itDependsOn, component, d)
    {
      if component !in components {
        return NonExistentComponent;
      }
      var handled := FindAllDependenciesImpl(component, {});
      r := Dependencies(handled - {component});
      forall d ensures d in r.names <==> DependsOn(itDependsOn, component, d) {
        ReachesSplit(itDependsOn, component, d);
        if Reaches(itDependsOn, component, d) {
          ClosedKeepsReach(itDependsOn, handled, component, d);
        }
      }
    }

    /** The upward and the downward search agree on every graph the context can hold. */
    method QueriesAgree(component: Name, dependency: Name) returns (up: bool, down: Dependencies)
      requires Valid() && component in components
      ensures down.Dependencies? && (up <==> dependency in down.names)
    {
      up := HasDependencyOn(component, dependency);
      down := GetAllDependencies(component);
    }
  }

  /** `chain` runs from `to` through recorded dependencies to `from` and ends with the refused edge. */
  ghost predicate CycleThrough(g: Graph, from: Name, to: Name, chain: seq<Name>) {
    && |chain| >= 2
    && chain[0] == to && chain[|chain| - 2] == from && chain[|chain| - 1] == to
    && forall i, j :: 0 <= i < j < |chain| - 1 && j == i + 1 ==> Edge(g, chain[i], chain[j])
  }

  /** A failed search has handled everything that depends on `from`, so `to` does not. */
  lemma UnhandledIsUnreachable(down: Graph, up: Graph, handled: set<Name>, from: Name, to: Name)
    requires Converse(down, up) && from in handled && to !in handled
    requires forall x :: x in handled && x in up ==> up[x] <= handled
    ensures !Reaches(down, to, from)
  {
    if Reaches(down, to, from) {
      ConverseReaches(up, down, to, from);
      ClosedKeepsReach(up, handled, from, to);
    }
  }

  lemma OutsideIsUnreachable(g: Graph, nodes: set<Name>, a: Name, b: Name)
    requires OverNodes(g, nodes) && a in nodes && b !in nodes
    ensures !DependsOn(g, a, b)
  {
    ReachesSplit(g, a, b);
    if Reaches(g, a, b) {
      ClosedKeepsReach(g, nodes, a, b);
    }
  }

  lemma MirroredEdges(down: Graph, up: Graph, a: Name, b: Name)
    requires Converse(down, up) && a in down && b in up
    ensures Converse(AddEdge(down, a, b), AddEdge(up, b, a))
  {
    var d, u := AddEdge(down, a, b), AddEdge(up, b, a);
    forall x, y ensures Edge(d, x, y) <==> Edge(u, y, x) {
      assert Edge(d, x, y) <==> Edge(down, x, y) || (x == a && y == b);
      assert Edge(u, y, x) <==> Edge(up, y, x) || (x == a && y == b);
    }
  }
}
