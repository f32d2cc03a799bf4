/**
  * In which order the handlers of the component system run, told of whole runs by the discovered
  * dependencies alone: after loading, dependencies come first; on the way down, dependents do.
  */
module SystemOrder {
  import opened Graphs
  import opened Components
  import Loading
  import Phase = StageSwitching
  import Order = StageOrder
  import opened Lifecycle

  /** A handler begins after those of everything its component depends on have ended. */
  ghost predicate DependenciesFirst(deps: Graph, log: seq<Phase.Event>) {
    forall i, c, d :: 0 <= i < |log| && log[i] == Phase.Began(c) && Edge(deps, c, d) ==> Phase.Ended(d) in log[..i]
  }

  /** A handler begins after those of everything that depends on its component have ended. */
  ghost predicate DependentsFirst(deps: Graph, log: seq<Phase.Event>) {
    forall i, c, d :: 0 <= i < |log| && log[i] == Phase.Began(d) && Edge(deps, c, d) ==> Phase.Ended(c) in log[..i]
  }

  ghost predicate OnceEach(names: set<Name>, log: seq<Phase.Event>) {
    forall c :: c in names ==> multiset(log)[Phase.Began(c)] == 1 && multiset(log)[Phase.Ended(c)] == 1
  }

  // ---- what a dependency is ----------------------------------------------

  /** The constructor of `c` is looking up `d`, or waiting for it. */
  ghost predicate LooksUp(s: System, c: Name, d: Name) {
    && s.Booting? && Loading.Boot(c) in s.l.pc
    && (s.l.pc[Loading.Boot(c)] == Loading.Looking(d) || s.l.pc[Loading.Boot(c)] == Loading.Waiting(d))
  }

  /** Edges stay, and a new one comes with the lookup that it records. */
  lemma EdgesComeFromLookups(names: set<Name>, s: System, s': System, c: Name, d: Name)
    requires Inv(names, s) && Next(names, s, s')
    ensures Edge(s.Deps(), c, d) ==> Edge(s'.Deps(), c, d)
    ensures Edge(s'.Deps(), c, d) ==> Edge(s.Deps(), c, d) || LooksUp(s', c, d)
  {
    hide Phase.Next, Phase.Inv, Loading.Next, Loading.Inv, Starts, LooksUp, Edge;
    if s.Booting? && s'.Booting? {
      LoadingEdges(names, s.l, s'.l, c, d);
    } else {
      NewSystemDeps(names, s, s');
    }
  }

  lemma NewSystemDeps(names: set<Name>, s: System, s': System)
    requires Next(names, s, s') && !(s.Booting? && s'.Booting?)
    ensures s'.Deps() == s.Deps()
  {
    hide Phase.Next, Loading.Next, Starts;
  }

  lemma LoadingEdges(names: set<Name>, l: Loading.State, l': Loading.State, c: Name, d: Name)
    requires Loading.Next(names, l, l')
    ensures Edge(l.deps, c, d) ==> Edge(l'.deps, c, d)
    ensures Edge(l'.deps, c, d) ==> Edge(l.deps, c, d) || LooksUp(Booting(l'), c, d)
  {
    hide Loading.Step, Loading.FindStep, LooksUp, Edge;
    var a :| Loading.Step(names, l, a, l');
    StepOnDeps(names, l, a, l');
    if l'.deps != l.deps {
      var x :| x in names && a.Boot? && a.name in l.deps && l' == Loading.FindStep(l, a, x);
      FindEdges(l, a, x, c, d);
    }
  }

  /** Only a lookup touches the graph. */
  lemma StepOnDeps(names: set<Name>, l: Loading.State, a: Loading.Actor, l': Loading.State)
    requires Loading.Names(l, names) && Loading.Step(names, l, a, l')
    ensures || l'.deps == l.deps
            || exists x :: x in names && a.Boot? && a.name in l.deps && l' == Loading.FindStep(l, a, x)
  {
    hide Acyclic, Loading.Blocked, Loading.CancelStep, Loading.FindStep;
    var pc := l.pc[a];
    if pc.Flagging? || pc.Deciding? || pc.Notifying? || pc.NotifyClaim? {
      CancelKeepsDeps(names, l, a, l');
    }
  }

  lemma FindEdges(l: Loading.State, a: Loading.Actor, x: Name, c: Name, d: Name)
    requires a.Boot? && a.name in l.deps
    ensures var l' := Loading.FindStep(l, a, x);
            && (Edge(l.deps, c, d) ==> Edge(l'.deps, c, d))
            && (Edge(l'.deps, c, d) ==> Edge(l.deps, c, d) || LooksUp(Booting(l'), c, d))
  {
  }

  lemma CancelKeepsDeps(names: set<Name>, l: Loading.State, a: Loading.Actor, l': Loading.State)
    requires Loading.Names(l, names) && a in l.pc && Loading.CancelStep(names, l, a, l')
    ensures l'.deps == l.deps
  {
  }

  /** In every run the dependencies are exactly the lookups that constructors have made. */
  lemma {:induction false} DependenciesAreLookups(names: set<Name>, tr: seq<System>, k: nat, c: Name, d: Name)
    requires Run(names, tr) && k < |tr|
    ensures Edge(tr[k].Deps(), c, d) <==> exists i :: 0 <= i <= k && LooksUp(tr[i], c, d)
  {
    hide Next, Inv, LooksUp;
    if k > 0 {
      DependenciesAreLookups(names, tr, k - 1, c, d);
      RunInv(names, tr, k - 1);
      assert Next(names, tr[k - 1], tr[k]);
      EdgesComeFromLookups(names, tr[k - 1], tr[k], c, d);
    }
    RunInv(names, tr, k);
    LookupIsRecorded(names, tr[k], c, d);
    if k == 0 { StartsWithoutEdges(names, tr[0], c, d); }
  }

  lemma LookupIsRecorded(names: set<Name>, s: System, c: Name, d: Name)
    requires Inv(names, s)
    ensures LooksUp(s, c, d) ==> Edge(s.Deps(), c, d)
  {
    if LooksUp(s, c, d) { assert Loading.PcOk(names, s.l, Loading.Boot(c)); }
  }

  lemma StartsWithoutEdges(names: set<Name>, s: System, c: Name, d: Name)
    requires s.Booting? && Loading.Init(names, s.l)
    ensures !Edge(s.Deps(), c, d) && !LooksUp(s, c, d)
  {
  }

  // ---- the order of handlers ---------------------------------------------

  lemma LoadedMeansDependenciesFirst(deps: Graph, log: seq<Phase.Event>)
    ensures Phase.Ordered(PhaseOf(Loaded, deps), log) <==> DependenciesFirst(deps, log)
  {
    if DependenciesFirst(deps, log) {
      forall i, d | 0 <= i < |log| && log[i].Began? && Edge(deps, log[i].name, d) ensures Phase.Ended(d) in log[..i] {
        assert log[i] == Phase.Began(log[i].name);
      }
    }
  }

  lemma DownMeansDependentsFirst(names: set<Name>, kind: Kind, deps: Graph, log: seq<Phase.Event>)
    requires kind != Loaded && OverNodes(deps, names) && Phase.Ordered(PhaseOf(kind, deps), log)
    ensures DependentsFirst(deps, log)
  {
    DependentsConverse(deps, names);
    forall i, c, d | 0 <= i < |log| && log[i] == Phase.Began(d) && Edge(deps, c, d)
      ensures Phase.Ended(c) in log[..i]
    {
      assert Edge(PhaseOf(kind, deps).waits, log[i].name, c);
    }
  }

  lemma EnteredCalm(names: set<Name>, kind: Kind, deps: Graph, info: Infos, s: System)
    requires Enters(kind, deps, info, s)
    ensures Order.CalmInv(PhaseOf(kind, deps), s.p)
  {
  }

  lemma {:induction false} CalmRun(names: set<Name>, tr: seq<System>, k: nat)
    requires Run(names, tr) && k < |tr| && tr[k].Switching?
    ensures Order.CalmInv(PhaseOf(tr[k].kind, tr[k].deps), tr[k].p)
  {
    hide Phase.Next, Phase.Inv, Loading.Next, Loading.Inv, Order.CalmInv, Enters, PhaseOf;
    assert k > 0 && Next(names, tr[k - 1], tr[k]);
    if tr[k - 1].Switching? && Phase.Next(PhaseOf(tr[k - 1].kind, tr[k - 1].deps), names, tr[k - 1].p, tr[k].p)
       && tr[k].kind == tr[k - 1].kind && tr[k].deps == tr[k - 1].deps {
      CalmRun(names, tr, k - 1);
      RunInv(names, tr, k - 1);
      Order.NextStaysCalm(PhaseOf(tr[k].kind, tr[k].deps), names, tr[k - 1].p, tr[k].p);
    } else {
      var info := tr[k - 1].Info();
      assert Enters(tr[k].kind, tr[k].deps, info, tr[k]) by { EnteredFrom(names, tr[k - 1], tr[k]); }
      EnteredCalm(names, tr[k].kind, tr[k].deps, info, tr[k]);
    }
  }

  lemma EnteredFrom(names: set<Name>, s: System, s': System)
    requires Next(names, s, s') && s'.Switching?
    requires !(s.Switching? && s'.kind == s.kind && s'.deps == s.deps
               && Phase.Next(PhaseOf(s.kind, s.deps), names, s.p, s'.p))
    ensures Enters(s'.kind, s'.deps, s.Info(), s')
  {
    hide Phase.Next, Loading.Next, Starts, LoadFailed;
  }

  /** After loading, as long as no alarm is raised, a handler waits for those of all dependencies. */
  lemma LoadedInOrder(names: set<Name>, tr: seq<System>, k: nat)
    requires Run(names, tr) && k < |tr| && tr[k].Switching? && tr[k].kind == Loaded && !tr[k].p.aborted
    ensures DependenciesFirst(tr[k].deps, tr[k].p.log)
  {
    hide Run, DependenciesFirst;
    CalmRun(names, tr, k);
    LoadedMeansDependenciesFirst(tr[k].deps, tr[k].p.log);
  }

  /** Stopping and clearing take dependents first, at every moment and whatever handlers throw. */
  lemma DownInOrder(names: set<Name>, tr: seq<System>, k: nat)
    requires Run(names, tr) && k < |tr| && tr[k].Switching? && tr[k].kind != Loaded
    ensures DependentsFirst(tr[k].deps, tr[k].p.log)
  {
    hide Run, DependentsFirst, Phase.Inv, Phase.Ordered;
    RunInv(names, tr, k);
    Phase.UncancellableAlwaysOrdered(PhaseOf(tr[k].kind, tr[k].deps), names, tr[k].p);
    DownMeansDependentsFirst(names, tr[k].kind, tr[k].deps, tr[k].p.log);
  }

  lemma FinishedOnceEach(names: set<Name>, ph: Phase.Phase, p: Phase.State)
    requires Phase.Inv(ph, names, p) && Phase.AllDone(p)
    ensures OnceEach(names, p.log)
    ensures !p.aborted ==> forall c :: c in names ==> c in p.pc && p.pc[c] == Phase.Done(false)
  {
    forall c | c in names
      ensures multiset(p.log)[Phase.Began(c)] == 1 && multiset(p.log)[Phase.Ended(c)] == 1
      ensures !p.aborted ==> c in p.pc && p.pc[c] == Phase.Done(false)
    {
      assert Phase.TaskOk(ph, names, p, c);
    }
  }

  /** Serving follows a phase in which every handler ran once, after those of its dependencies, and none failed. */
  lemma ServingFollowsGoodPhase(names: set<Name>, tr: seq<System>, k: nat)
    requires Run(names, tr) && k < |tr| && tr[k].Serving?
    ensures k > 0 && tr[k - 1].Switching? && tr[k - 1].kind == Loaded && tr[k - 1].deps == tr[k].deps
    ensures OnceEach(names, tr[k - 1].p.log) && DependenciesFirst(tr[k].deps, tr[k - 1].p.log)
    ensures forall c :: c in names ==> c in tr[k - 1].p.pc && tr[k - 1].p.pc[c] == Phase.Done(false)
  {
    hide Phase.Next, Phase.Inv, Loading.Next, Loading.Inv, Starts, DependenciesFirst;
    assert k > 0 && Next(names, tr[k - 1], tr[k]);
    RunInv(names, tr, k - 1);
    FinishedOnceEach(names, PhaseOf(Loaded, tr[k].deps), tr[k - 1].p);
    LoadedInOrder(names, tr, k - 1);
  }

  /** Nothing is destroyed before every component was told, dependents first, that all are stopping. */
  lemma {:induction false} StoppedBeforeClearing(names: set<Name>, tr: seq<System>, k: nat) returns (j: nat)
    requires Run(names, tr) && k < |tr| && (tr[k].Cleared? || (tr[k].Switching? && tr[k].kind == Clearing))
    ensures j < k && tr[j].Switching? && tr[j].kind == Stopping && tr[j].deps == tr[k].deps
    ensures OnceEach(names, tr[j].p.log) && DependentsFirst(tr[k].deps, tr[j].p.log)
  {
    hide Phase.Next, Phase.Inv, Loading.Next, Loading.Inv, Starts, DependentsFirst, OnceEach;
    assert k > 0 && Next(names, tr[k - 1], tr[k]);
    if tr[k - 1].kind == Clearing {
      j := StoppedBeforeClearing(names, tr, k - 1);
    } else {
      j := k - 1;
      RunInv(names, tr, k - 1);
      FinishedOnceEach(names, PhaseOf(Stopping, tr[k].deps), tr[k - 1].p);
      DownInOrder(names, tr, k - 1);
    }
  }
}
