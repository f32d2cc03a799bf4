/**
  * The order of handlers over whole runs of the component system: a load that ends well leads into
  * the "all components loaded" phase, and there the order can break for exactly some dependency graphs.
  */
module LoadedOrder {
  import opened Graphs
  import opened Components
  import Loading
  import Phase = StageSwitching
  import Order = StageOrder
  import opened Lifecycle
  import opened SystemOrder

  // ---- a load in dependency order ----------------------------------------

  /** Everything outside `left` is constructed with its dependencies found; nothing in `left` has begun to look. */
  ghost function LoadState(names: set<Name>, deps: Graph, left: set<Name>): Loading.State
    requires deps.Keys == names
  {
    Loading.State(
      map n | n in names :: if n in left then {} else deps[n],
      map n | n in names :: if n in left then FRESH else FRESH.Published(),
      map n | n in names :: Loading.Boot(n) := if n in left then Loading.Constructing else Loading.Done(true),
      false)
  }

  /** The constructor of `x` has found the dependencies in `found` so far. */
  ghost function Looked(names: set<Name>, deps: Graph, left: set<Name>, x: Name, found: set<Name>): Loading.State
    requires deps.Keys == names
  {
    var s := LoadState(names, deps, left);
    s.(deps := s.deps[x := found])
  }

  function LastLoad(tr: seq<Loading.State>): Loading.State
    requires tr != []
  {
    tr[|tr| - 1]
  }

  lemma Extend(names: set<Name>, tr: seq<Loading.State>, a: Loading.Actor, s': Loading.State)
    returns (tr': seq<Loading.State>)
    requires Loading.Run(names, tr) && Loading.Step(names, LastLoad(tr), a, s') && Loading.Names(s', names)
    ensures Loading.Run(names, tr') && LastLoad(tr') == s'
  {
    hide Loading.Step, Loading.Init, Loading.Names;
    tr' := tr + [s'];
    assert Loading.Next(names, tr[|tr| - 1], s');
  }

  lemma PartDependsOn(g: Graph, h: Graph, a: Name, b: Name)
    requires forall x, y :: Edge(g, x, y) ==> Edge(h, x, y)
    ensures DependsOn(g, a, b) ==> DependsOn(h, a, b)
  {
    if p :| |p| >= 2 && PathBetween(g, p, a, b) {
      forall i, j | 0 <= i < j < |p| && j == i + 1 ensures Edge(h, p[i], p[j]) {
        assert Edge(g, p[i], p[j]);
      }
      assert PathBetween(h, p, a, b);
    }
  }

  /** A graph inside an acyclic one is acyclic. */
  lemma PartIsAcyclic(g: Graph, h: Graph)
    requires Acyclic(h) && forall a, b :: Edge(g, a, b) ==> Edge(h, a, b)
    ensures Acyclic(g)
  {
    hide DependsOn, Edge;
    forall a ensures !DependsOn(g, a, a) { PartDependsOn(g, h, a, a); }
  }

  lemma NextEdgeIsAcyclic(names: set<Name>, deps: Graph, left: set<Name>, x: Name, found: set<Name>, d: Name)
    requires OverNodes(deps, names) && Acyclic(deps) && x in left && left <= names
    requires d in deps[x] && found <= deps[x]
    ensures Acyclic(AddEdge(Looked(names, deps, left, x, found).deps, x, d))
  {
    hide Acyclic;
    var g := AddEdge(Looked(names, deps, left, x, found).deps, x, d);
    assert forall a, b :: Edge(g, a, b) ==> Edge(deps, a, b);
    PartIsAcyclic(g, deps);
  }

  /** A constructor finds a component that is there: the edge is recorded and it goes on. */
  lemma FindHere(names: set<Name>, before: seq<Loading.State>, x: Name, d: Name) returns (tr: seq<Loading.State>)
    requires Loading.Run(names, before) && x in names && d in names
    requires var s := LastLoad(before);
             && s.pc[Loading.Boot(x)] == Loading.Constructing && s.info[d].HasComponent()
             && Acyclic(AddEdge(s.deps, x, d))
    ensures var s := LastLoad(before);
            Loading.Run(names, tr) && LastLoad(tr) == s.(deps := AddEdge(s.deps, x, d))
  {
    hide Acyclic, Loading.Run;
    NamesInRun(names, before);
    var a := Loading.Boot(x);
    var s := LastLoad(before);
    var mid := RecordEdge(names, before, x, d);
    NamesInRun(names, mid);
    var s1 := LastLoad(mid);
    var s2 := Loading.Goto(s1, a, Loading.Constructing);
    assert Loading.Step(names, s1, a, s2);
    assert s2.pc == s.pc;
    tr := Extend(names, mid, a, s2);
  }

  lemma NamesInRun(names: set<Name>, tr: seq<Loading.State>)
    requires Loading.Run(names, tr)
    ensures tr != [] && Loading.Names(LastLoad(tr), names)
  {
  }

  lemma RecordEdge(names: set<Name>, before: seq<Loading.State>, x: Name, d: Name) returns (tr: seq<Loading.State>)
    requires Loading.Run(names, before) && x in names && d in names
    requires LastLoad(before).pc[Loading.Boot(x)] == Loading.Constructing
    requires Acyclic(AddEdge(LastLoad(before).deps, x, d))
    ensures Loading.Run(names, tr) && LastLoad(tr) == Loading.FindStep(LastLoad(before), Loading.Boot(x), d)
    ensures Loading.Names(LastLoad(tr), names)
  {
    hide Acyclic, Loading.Run;
    NamesInRun(names, before);
    var s := LastLoad(before);
    var s1 := Loading.FindStep(s, Loading.Boot(x), d);
    assert Loading.ConstructorStep(names, s, Loading.Boot(x), s1);
    tr := Extend(names, before, Loading.Boot(x), s1);
  }

  lemma PublishHere(names: set<Name>, before: seq<Loading.State>, x: Name) returns (tr: seq<Loading.State>)
    requires Loading.Run(names, before) && x in names && LastLoad(before).pc[Loading.Boot(x)] == Loading.Constructing
    ensures Loading.Run(names, tr) && LastLoad(tr) == Loading.PublishStep(LastLoad(before), Loading.Boot(x))
  {
    hide Acyclic, Loading.Run;
    NamesInRun(names, before);
    var s := LastLoad(before);
    var s' := Loading.PublishStep(s, Loading.Boot(x));
    assert Loading.ConstructorStep(names, s, Loading.Boot(x), s');
    tr := Extend(names, before, Loading.Boot(x), s');
  }

  lemma OneMoreLooked(names: set<Name>, deps: Graph, left: set<Name>, x: Name, found: set<Name>, d: Name)
    requires OverNodes(deps, names) && x in left && left <= names
    ensures var s := Looked(names, deps, left, x, found);
            && s.pc[Loading.Boot(x)] == Loading.Constructing
            && s.(deps := AddEdge(s.deps, x, d)) == Looked(names, deps, left, x, found + {d})
            && (d in names - left ==> s.info[d].HasComponent())
  {
  }

  /** One dependency of the next component. */
  lemma FindOne(names: set<Name>, deps: Graph, left: set<Name>, before: seq<Loading.State>,
                x: Name, found: set<Name>, d: Name)
    returns (tr: seq<Loading.State>)
    requires OverNodes(deps, names) && Acyclic(deps) && x in left && left <= names
    requires Loading.Run(names, before) && LastLoad(before) == Looked(names, deps, left, x, found)
    requires d in deps[x] && d !in left && found <= deps[x]
    ensures Loading.Run(names, tr) && LastLoad(tr) == Looked(names, deps, left, x, found + {d})
  {
    hide Loading.Run, Acyclic, Looked;
    NextEdgeIsAcyclic(names, deps, left, x, found, d);
    OneMoreLooked(names, deps, left, x, found, d);
    tr := FindHere(names, before, x, d);
  }

  lemma {:induction false} FindAll(names: set<Name>, deps: Graph, left: set<Name>, before: seq<Loading.State>,
                                   x: Name, todo: set<Name>)
    returns (tr: seq<Loading.State>)
    requires OverNodes(deps, names) && Acyclic(deps) && x in left && left <= names && deps[x] !! left && todo <= deps[x]
    requires Loading.Run(names, before) && LastLoad(before) == Looked(names, deps, left, x, deps[x] - todo)
    ensures Loading.Run(names, tr) && LastLoad(tr) == Looked(names, deps, left, x, deps[x])
    decreases todo
  {
    hide Loading.Run, Acyclic, Looked;
    if todo == {} {
      tr := before;
      assert deps[x] - todo == deps[x];
    } else {
      var d :| d in todo;
      tr := FindOne(names, deps, left, before, x, deps[x] - todo, d);
      assert deps[x] - todo + {d} == deps[x] - (todo - {d});
      tr := FindAll(names, deps, left, tr, x, todo - {d});
    }
  }

  /** One component: look up everything it depends on, then publish. */
  lemma BootOne(names: set<Name>, deps: Graph, left: set<Name>, before: seq<Loading.State>, x: Name)
    returns (tr: seq<Loading.State>)
    requires OverNodes(deps, names) && Acyclic(deps) && x in left && left <= names && deps[x] !! left
    requires Loading.Run(names, before) && LastLoad(before) == LoadState(names, deps, left)
    ensures Loading.Run(names, tr) && LastLoad(tr) == LoadState(names, deps, left - {x})
  {
    hide Loading.Run, Acyclic, Looked, LoadState;
    BeforeAndAfter(names, deps, left, x);
    assert deps[x] - deps[x] == {};
    tr := FindAll(names, deps, left, before, x, deps[x]);
    tr := PublishHere(names, tr, x);
  }

  /** Having looked for nothing, and having found everything and published. */
  lemma BeforeAndAfter(names: set<Name>, deps: Graph, left: set<Name>, x: Name)
    requires OverNodes(deps, names) && x in left && left <= names
    ensures LoadState(names, deps, left) == Looked(names, deps, left, x, {})
    ensures var s := Looked(names, deps, left, x, deps[x]);
            && s.pc[Loading.Boot(x)] == Loading.Constructing
            && Loading.PublishStep(s, Loading.Boot(x)) == LoadState(names, deps, left - {x})
  {
    var s := Looked(names, deps, left, x, deps[x]);
    var s' := Loading.PublishStep(s, Loading.Boot(x));
    var t := LoadState(names, deps, left - {x});
    assert LoadState(names, deps, left).deps == Looked(names, deps, left, x, {}).deps;
    assert s'.deps == t.deps && s'.info == t.info && s'.pc == t.pc;
  }

  lemma {:induction false} BootSet(names: set<Name>, deps: Graph, left: set<Name>, before: seq<Loading.State>)
    returns (tr: seq<Loading.State>)
    requires OverNodes(deps, names) && Acyclic(deps) && left <= names
    requires Loading.Run(names, before) && LastLoad(before) == LoadState(names, deps, left)
    ensures Loading.Run(names, tr) && LastLoad(tr) == LoadState(names, deps, {})
    decreases left
  {
    hide Loading.Run, LoadState, Acyclic;
    if left == {} {
      tr := before;
    } else {
      var x := HasSink(deps, left);
      assert deps[x] !! left by {
        forall y | y in left ensures y !in deps[x] { assert !Edge(deps, x, y); }
      }
      tr := BootOne(names, deps, left, before, x);
      tr := BootSet(names, deps, left - {x}, tr);
    }
  }

  /** Every acyclic graph over the components is what some load, in which nothing fails, discovers. */
  lemma GoodLoad(names: set<Name>, deps: Graph) returns (tr: seq<Loading.State>)
    requires OverNodes(deps, names) && Acyclic(deps)
    ensures Loading.Run(names, tr) && LastLoad(tr) == LoadState(names, deps, {})
  {
    hide Acyclic;
    var s := LoadState(names, deps, names);
    assert Loading.Init(names, s);
    tr := BootSet(names, deps, names, [s]);
  }

  // ---- into the phase -----------------------------------------------------

  /** A run of the system that has come to the phase after loading, with these dependencies. */
  ghost predicate InLoaded(names: set<Name>, deps: Graph, tr: seq<System>) {
    && Run(names, tr)
    && var s := tr[|tr| - 1];
       s.Switching? && s.kind == Loaded && s.deps == deps
  }

  /** ... and has broken the order of handlers there. */
  ghost predicate Broken(names: set<Name>, deps: Graph, tr: seq<System>) {
    InLoaded(names, deps, tr) && !DependenciesFirst(deps, tr[|tr| - 1].p.log)
  }

  /** `b` depends on `a`, while `c` does not, so that `c` can fail before the handler of `a` has run. */
  ghost predicate Exposed(names: set<Name>, deps: Graph, a: Name, b: Name, c: Name) {
    Edge(deps, b, a) && c in names && c != a && !DependsOn(deps, c, a)
  }

  lemma ExposedIsBreakable(names: set<Name>, deps: Graph, a: Name, b: Name, c: Name)
    ensures Exposed(names, deps, a, b, c) <==> Order.Breakable(PhaseOf(Loaded, deps), names, a, b, c)
  {
    hide DependsOn, Reaches;
    ReachesSplit(deps, c, a);
    if c == a { ReachesSelf(deps, a); }
    if DependsOn(deps, c, a) { DependsReaches(deps, c, a); }
  }

  lemma ReachesSelf(g: Graph, a: Name)
    ensures Reaches(g, a, a)
  {
    assert PathBetween(g, [a], a, a);
  }

  lemma DependsReaches(g: Graph, a: Name, b: Name)
    requires DependsOn(g, a, b)
    ensures Reaches(g, a, b)
  {
  }

  lemma {:induction false} BootRun(names: set<Name>, loads: seq<Loading.State>, k: nat) returns (tr: seq<System>)
    requires Loading.Run(names, loads) && k < |loads|
    ensures Run(names, tr) && tr[|tr| - 1] == Booting(loads[k])
  {
    hide Loading.Next, Loading.Init;
    if k == 0 {
      tr := [Booting(loads[0])];
    } else {
      var before := BootRun(names, loads, k - 1);
      assert Loading.Next(names, loads[k - 1], loads[k]);
      tr := ExtendSystem(names, before, Booting(loads[k]));
    }
  }

  lemma ExtendSystem(names: set<Name>, tr: seq<System>, s: System) returns (tr': seq<System>)
    requires Run(names, tr) && Next(names, tr[|tr| - 1], s)
    ensures Run(names, tr') && tr' == tr + [s]
  {
    hide Next, Loading.Init;
    tr' := tr + [s];
  }

  /** The state in which the phase is entered after a good load. */
  ghost function PhaseStart(names: set<Name>, deps: Graph): Phase.State
    requires deps.Keys == names
  {
    var info := LoadState(names, deps, {}).info;
    Phase.State(map c | c in info :: info[c].WithCancelled(false),
                map c | c in info :: Phase.Waiting(Phase.OrderOf(deps[c])), false, [])
  }

  /** After a good load every task is done, none failed, and the graph is the one discovered. */
  lemma GoodLoadEnds(names: set<Name>, deps: Graph)
    requires OverNodes(deps, names)
    ensures var l := LoadState(names, deps, {});
            l.deps == deps && l.info.Keys == names && Loading.AllDone(l) && !LoadFailed(l)
    ensures forall c :: c in names ==> LoadState(names, deps, {}).info[c] == FRESH.Published()
  {
    assert LoadState(names, deps, {}).deps == deps;
  }

  lemma PhaseStartIsConstructed(names: set<Name>, deps: Graph)
    requires OverNodes(deps, names)
    ensures Order.Constructed(PhaseOf(Loaded, deps), names, PhaseStart(names, deps))
  {
    hide LoadState;
    GoodLoadEnds(names, deps);
  }

  lemma LoadEntersPhase(names: set<Name>, deps: Graph)
    requires OverNodes(deps, names)
    ensures Next(names, Booting(LoadState(names, deps, {})), Switching(Loaded, deps, PhaseStart(names, deps)))
  {
    hide LoadState, Loading.Next, LoadFailed, Loading.AllDone;
    GoodLoadEnds(names, deps);
    var info := LoadState(names, deps, {}).info;
    assert Starts(Loaded, deps, info, PhaseStart(names, deps));
  }

  /** The system, from its start through a good load into the phase. */
  lemma RunIntoPhase(names: set<Name>, deps: Graph) returns (tr: seq<System>)
    requires OverNodes(deps, names) && Acyclic(deps)
    ensures Run(names, tr) && tr[|tr| - 1] == Switching(Loaded, deps, PhaseStart(names, deps))
  {
    hide Run, Next, Loading.Run, Acyclic, LoadState, PhaseStart;
    var loads := GoodLoad(names, deps);
    NamesInRun(names, loads);
    tr := BootRun(names, loads, |loads| - 1);
    LoadEntersPhase(names, deps);
    tr := ExtendSystem(names, tr, Switching(Loaded, deps, PhaseStart(names, deps)));
  }

  lemma {:induction false} PhaseRun(names: set<Name>, deps: Graph, before: seq<System>, states: seq<Phase.State>,
                                    k: nat)
    returns (tr: seq<System>)
    requires Run(names, before) && Phase.Run(PhaseOf(Loaded, deps), names, states) && k < |states|
    requires before[|before| - 1] == Switching(Loaded, deps, states[0])
    ensures Run(names, tr) && tr[|tr| - 1] == Switching(Loaded, deps, states[k])
  {
    hide Phase.Next, Phase.Init, Run;
    if k == 0 {
      tr := before;
    } else {
      var mid := PhaseRun(names, deps, before, states, k - 1);
      assert Phase.Next(PhaseOf(Loaded, deps), names, states[k - 1], states[k]);
      tr := ExtendSystem(names, mid, Switching(Loaded, deps, states[k]));
    }
  }

  /** A good load, the phase entered, and the order broken. */
  lemma BreakingSystemRun(names: set<Name>, deps: Graph, a: Name, b: Name, c: Name) returns (tr: seq<System>)
    requires OverNodes(deps, names) && Acyclic(deps) && Exposed(names, deps, a, b, c)
    ensures Broken(names, deps, tr)
  {
    hide Run, Phase.Run, Acyclic, Order.Constructed, PhaseStart, Phase.Ordered, DependenciesFirst;
    var ph := PhaseOf(Loaded, deps);
    ExposedIsBreakable(names, deps, a, b, c);
    var before := RunIntoPhase(names, deps);
    PhaseStartIsConstructed(names, deps);
    var states := Order.BreakingRun(ph, names, PhaseStart(names, deps), a, b, c);
    Order.RunIsTyped(ph, names, states);
    Order.BegunTooEarly(ph, Order.Last(states).log, a, b);
    LoadedMeansDependenciesFirst(deps, Order.Last(states).log);
    tr := PhaseRun(names, deps, before, states, |states| - 1);
  }

  // ---- and nowhere else ---------------------------------------------------

  lemma {:induction false} KeepsOrderInv(names: set<Name>, tr: seq<System>, k: nat)
    requires Run(names, tr) && k < |tr| && tr[k].Switching? && tr[k].kind == Loaded
    requires Order.Unbreakable(PhaseOf(Loaded, tr[k].deps), names)
    ensures Order.OrderInv(PhaseOf(Loaded, tr[k].deps), tr[k].p)
  {
    hide Phase.Next, Phase.Inv, Loading.Next, Loading.Inv, Order.Unbreakable;
    var ph := PhaseOf(Loaded, tr[k].deps);
    assert k > 0;
    assert Next(names, tr[k - 1], tr[k]);
    RunInv(names, tr, k - 1);
    if tr[k - 1].Switching? {
      KeepsOrderInv(names, tr, k - 1);
      Order.NextKeepsOrder(ph, names, tr[k - 1].p, tr[k].p);
    } else {
      LoadedComponents(names, tr[k - 1].l);
      assert tr[k].p.log == [] && !tr[k].p.aborted;
      assert forall x :: !Phase.Failing(tr[k].p, x);
    }
  }

  /** Without such components, the handlers of all dependencies have ended before anybody can fail. */
  lemma LoadedKeepsOrder(names: set<Name>, tr: seq<System>, k: nat)
    requires Run(names, tr) && k < |tr| && tr[k].Switching? && tr[k].kind == Loaded
    requires forall a, b, c :: !Exposed(names, tr[k].deps, a, b, c)
    ensures DependenciesFirst(tr[k].deps, tr[k].p.log)
    ensures Phase.Disturbed(tr[k].p) ==>
              forall a, b :: Edge(tr[k].deps, b, a) ==> Phase.Ended(a) in tr[k].p.log
  {
    hide Run, DependenciesFirst, Exposed, Order.Breakable, Phase.Ordered, Phase.Disturbed;
    var ph := PhaseOf(Loaded, tr[k].deps);
    forall a, b, c ensures !Order.Breakable(ph, names, a, b, c) {
      ExposedIsBreakable(names, tr[k].deps, a, b, c);
    }
    KeepsOrderInv(names, tr, k);
    LoadedMeansDependenciesFirst(tr[k].deps, tr[k].p.log);
  }

  /**
    * Some run of the system breaks the order of handlers in the phase after loading if and only if the
    * discovered graph has a component that is depended on and another that does not depend on it.
    */
  lemma LoadedOrderBreaksIff(names: set<Name>, deps: Graph)
    requires OverNodes(deps, names) && Acyclic(deps)
    ensures (exists tr :: Broken(names, deps, tr)) <==> exists a, b, c :: Exposed(names, deps, a, b, c)
  {
    hide Run, Acyclic, Exposed, DependenciesFirst;
    if a, b, c :| Exposed(names, deps, a, b, c) {
      var tr := BreakingSystemRun(names, deps, a, b, c);
    }
    if tr :| Broken(names, deps, tr) {
      if forall a, b, c :: !Exposed(names, deps, a, b, c) {
        assert |tr| > 0 by { SystemRunStarts(names, tr); }
        LoadedKeepsOrder(names, tr, |tr| - 1);
      }
    }
  }

  lemma SystemRunStarts(names: set<Name>, tr: seq<System>)
    requires Run(names, tr)
    ensures |tr| > 0
  {
  }
}
