/** Whole runs of the component system, in the order `Manager` drives them: loading; the
    "all components loaded" phase; serving; the stopping phase; the clearing phase. A load or a
    loaded phase that fails goes straight to stopping. */
module Lifecycle {
  import opened Graphs
  import opened Components
  import Loading
  import StageSwitching

  datatype Kind = Loaded | Stopping | Clearing

  datatype System =
    | Booting(l: Loading.State)
    | Switching(kind: Kind, deps: Graph, p: StageSwitching.State)
    | Serving(deps: Graph, info: Infos)
    | Cleared(deps: Graph, info: Infos)
  {
    function Deps(): Graph { if Booting? then l.deps else deps }

    function Info(): Infos { if Booting? then l.info else if Switching? then p.info else info }
  }

  /** What each component's dependents are. */
  function Dependents(deps: Graph): Graph {
    map c | c in deps :: set x | x in deps && c in deps[x]
  }

  function PhaseOf(kind: Kind, deps: Graph): StageSwitching.Phase {
    match kind
    case Loaded => StageSwitching.Phase(Running, deps, true, false)
    case Stopping => StageSwitching.Phase(ReadyForClearing, Dependents(deps), false, false)
    case Clearing => StageSwitching.Phase(Null, Dependents(deps), false, true)
  }

  /** Some boot task ended with an exception; a cancellation that no constructor noticed does not count. */
  ghost predicate LoadFailed(l: Loading.State) {
    exists c :: c in l.info && Loading.Boot(c) in l.pc && l.pc[Loading.Boot(c)] == Loading.Done(false)
  }

  /** A phase starts on the components as they are, with the cancel flags lowered and every task
      about to wait for its neighbours in some order. */
  ghost predicate Starts(kind: Kind, deps: Graph, info: Infos, p: StageSwitching.State) {
    var ph := PhaseOf(kind, deps);
    && p.info == (map c | c in info :: info[c].WithCancelled(false))
    && p.pc.Keys == info.Keys && !p.aborted && p.log == []
    && forall c :: c in info && c in ph.waits ==>
         p.pc[c].Waiting? && StageSwitching.Enumerates(p.pc[c].todo, ph.waits[c])
  }

  ghost predicate Next(names: set<Name>, s: System, s': System) {
    match s
    case Booting(l) =>
      || (s'.Booting? && Loading.Next(names, l, s'.l))
      || (Loading.AllDone(l) && !LoadFailed(l) && Enters(Loaded, l.deps, l.info, s'))
      || (Loading.AllDone(l) && LoadFailed(l) && Enters(Stopping, l.deps, l.info, s'))
    case Switching(kind, deps, p) =>
      || (s'.Switching? && s'.kind == kind && s'.deps == deps
          && StageSwitching.Next(PhaseOf(kind, deps), names, p, s'.p))
      || (StageSwitching.AllDone(p) &&
          match kind
          case Loaded => if p.aborted then Enters(Stopping, deps, p.info, s') else s' == Serving(deps, p.info)
          case Stopping => Enters(Clearing, deps, p.info, s')
          case Clearing => s' == Cleared(deps, p.info))
    case Serving(deps, info) => Enters(Stopping, deps, info, s')
    case Cleared(_, _) => false
  }

  ghost predicate Enters(kind: Kind, deps: Graph, info: Infos, s': System) {
    s'.Switching? && s'.kind == kind && s'.deps == deps && Starts(kind, deps, info, s'.p)
  }

  ghost predicate Run(names: set<Name>, tr: seq<System>) {
    && |tr| > 0 && tr[0].Booting? && Loading.Init(names, tr[0].l)
    && (forall i, j :: 0 <= i < j < |tr| && j == i + 1 ==> Next(names, tr[i], tr[j]))
  }

  // ---- invariant ---------------------------------------------------------

  ghost predicate Standing(names: set<Name>, deps: Graph, info: Infos) {
    && info.Keys == names && OverNodes(deps, names) && Acyclic(deps)
    && forall c :: c in info ==> info[c].life.Unborn? || info[c].life.Alive?
  }

  ghost predicate Inv(names: set<Name>, s: System) {
    match s
    case Booting(l) => Loading.Inv(names, l)
    case Switching(kind, deps, p) =>
      && OverNodes(deps, names) && Acyclic(deps)
      && StageSwitching.Inv(PhaseOf(kind, deps), names, p)
      && (kind.Loaded? ==> AllAlive(p.info))
    case Serving(deps, info) =>
      Standing(names, deps, info) && AllAlive(info) && forall c :: c in names ==> info[c].stage == Running
    case Cleared(deps, info) =>
      && info.Keys == names && OverNodes(deps, names)
      && forall c :: c in names ==> info[c].stage == Null && (info[c].life.Unborn? || info[c].life.Gone?)
  }

  ghost predicate AllAlive(info: Infos) { forall c :: c in info ==> info[c].life.Alive? }

  ghost predicate SameLives(info: Infos, info': Infos) {
    info'.Keys == info.Keys && forall x :: x in info ==> info'[x].life == info[x].life
  }

  lemma HandlersTakeNoLives(ph: StageSwitching.Phase, p: StageSwitching.State, c: Name, threw: bool)
    requires c in p.info && !ph.clears
    ensures SameLives(p.info, StageSwitching.BeginStep(ph, p, c).info)
    ensures SameLives(p.info, StageSwitching.EndStep(ph, p, c, threw).info)
  {
  }

  lemma TouchTakesNoLife(p: StageSwitching.State, d: Name, i: Info)
    requires d in p.info && i.life == p.info[d].life
    ensures SameLives(p.info, StageSwitching.Touch(p, d, i).info)
  {
  }

  /** Only the clearing phase takes lives. */
  lemma StepTakesNoLives(ph: StageSwitching.Phase, names: set<Name>, p: StageSwitching.State, c: Name,
                         p': StageSwitching.State)
    requires StageSwitching.Typed(ph, names, p) && StageSwitching.Step(ph, names, p, c, p') && !ph.clears
    ensures SameLives(p.info, p'.info)
  {
    hide StageSwitching.BeginStep, StageSwitching.EndStep, StageSwitching.Touch, SameLives;
    TouchTakesNoLife(p, c, p.info[c]);
    assert SameLives(p.info, p.info) by { KeepsLives(p.info); }
    match p.pc[c]
    case Waiting(_) => HandlersTakeNoLives(ph, p, c, false);
    case Handling => HandlersTakeNoLives(ph, p, c, false); HandlersTakeNoLives(ph, p, c, true);
    case Flunked => TouchTakesNoLife(p, c, p.info[c].WithCancelled(true));
    case Raising =>
    case Spreading(left) =>
      if left != {} {
        var d :| d in left && d in names &&
                 p' == StageSwitching.Goto(StageSwitching.Touch(p, d, p.info[d].WithCancelled(true)), c,
                                           StageSwitching.Spreading(left - {d}));
        TouchTakesNoLife(p, d, p.info[d].WithCancelled(true));
      }
    case Settling(_) => TouchTakesNoLife(p, c, p.info[c].WithStage(ph.next));
  }

  lemma KeepsLives(info: Infos)
    ensures SameLives(info, info)
  {
  }

  lemma LoadedTakesNoLives(names: set<Name>, deps: Graph, p: StageSwitching.State, p': StageSwitching.State)
    requires StageSwitching.Next(PhaseOf(Loaded, deps), names, p, p') && AllAlive(p.info)
    ensures AllAlive(p'.info)
  {
    hide StageSwitching.Step;
    var ph := PhaseOf(Loaded, deps);
    var c :| StageSwitching.Step(ph, names, p, c, p');
    StepTakesNoLives(ph, names, p, c, p');
  }

  /** A load in which no boot task failed has constructed every component. */
  lemma LoadedAllAlive(names: set<Name>, l: Loading.State)
    requires Loading.Inv(names, l) && Loading.AllDone(l) && !LoadFailed(l)
    ensures AllAlive(l.info)
  {
    forall c | c in l.info ensures l.info[c].life.Alive? {
      assert Loading.InfoOk(names, l, c) && Loading.PcOk(names, l, Loading.Boot(c));
    }
  }

  lemma DependentsConverse(deps: Graph, names: set<Name>)
    requires OverNodes(deps, names)
    ensures OverNodes(Dependents(deps), names) && Converse(deps, Dependents(deps))
  {
    var up := Dependents(deps);
    forall a, b ensures Edge(deps, a, b) <==> Edge(up, b, a) {
    }
  }

  /** Entering a phase from components none of which is at its target stage yet: no wait is vacuous. */
  lemma EnterInv(names: set<Name>, kind: Kind, deps: Graph, info: Infos, s': System)
    requires Standing(names, deps, info) && Enters(kind, deps, info, s')
    requires forall c :: c in names ==> info[c].stage != PhaseOf(kind, deps).next
    requires kind.Loaded? ==> AllAlive(info)
    ensures Inv(names, s')
  {
    DependentsConverse(deps, names);
    var ph := PhaseOf(kind, deps);
    assert StageSwitching.Init(ph, names, s'.p);
    StageSwitching.InitInv(ph, names, s'.p);
  }

  /** What a finished phase leaves behind. */
  lemma FinishedPhase(names: set<Name>, kind: Kind, deps: Graph, p: StageSwitching.State)
    requires Inv(names, Switching(kind, deps, p)) && StageSwitching.AllDone(p)
    ensures p.info.Keys == names
    ensures forall c :: c in names ==> p.info[c].stage == PhaseOf(kind, deps).next
    ensures forall c :: c in names ==>
              p.info[c].life.Unborn? || (if kind.Clearing? then p.info[c].life.Gone? else p.info[c].life.Alive?)
  {
    forall c | c in names
      ensures p.info[c].stage == PhaseOf(kind, deps).next
      ensures p.info[c].life.Unborn? || (if kind.Clearing? then p.info[c].life.Gone? else p.info[c].life.Alive?)
    {
      assert StageSwitching.TaskOk(PhaseOf(kind, deps), names, p, c);
    }
  }

  lemma LoadedComponents(names: set<Name>, l: Loading.State)
    requires Loading.Inv(names, l)
    ensures Standing(names, l.deps, l.info)
    ensures forall c :: c in names ==> l.info[c].stage == Null || l.info[c].stage == Created
  {
    forall c | c in names
      ensures l.info[c].life.Unborn? || l.info[c].life.Alive?
      ensures l.info[c].stage == Null || l.info[c].stage == Created
    {
      assert Loading.InfoOk(names, l, c);
    }
  }

  lemma BootingInv(names: set<Name>, s: System, s': System)
    requires s.Booting? && Inv(names, s) && Next(names, s, s')
    ensures Inv(names, s')
  {
    hide Loading.Next, Loading.Inv, Starts;
    if s'.Booting? {
      Loading.NextInv(names, s.l, s'.l);
    } else {
      LoadedComponents(names, s.l);
      if s'.kind.Loaded? { LoadedAllAlive(names, s.l); }
      EnterInv(names, s'.kind, s.l.deps, s.l.info, s');
    }
  }

  lemma SwitchingInv(names: set<Name>, s: System, s': System)
    requires s.Switching? && Inv(names, s) && Next(names, s, s')
    ensures Inv(names, s')
  {
    hide StageSwitching.Next, StageSwitching.Inv, Starts;
    if s'.Switching? && s'.kind == s.kind {
      StageSwitching.NextInv(PhaseOf(s.kind, s.deps), names, s.p, s'.p);
      if s.kind.Loaded? { LoadedTakesNoLives(names, s.deps, s.p, s'.p); }
    } else {
      FinishedPhase(names, s.kind, s.deps, s.p);
      if s'.Switching? {
        EnterInv(names, s'.kind, s.deps, s.p.info, s');
      }
    }
  }

  lemma NextInv(names: set<Name>, s: System, s': System)
    requires Inv(names, s) && Next(names, s, s')
    ensures Inv(names, s')
  {
    match s
    case Booting(_) => BootingInv(names, s, s');
    case Switching(_, _, _) => SwitchingInv(names, s, s');
    case Serving(deps, info) =>
      hide StageSwitching.Inv, Starts;
      EnterInv(names, Stopping, deps, info, s');
  }

  lemma {:induction false} RunInv(names: set<Name>, tr: seq<System>, k: nat)
    requires Run(names, tr) && k < |tr|
    ensures Inv(names, tr[k])
  {
    if k == 0 {
      Loading.InitInv(names, tr[0].l);
    } else {
      RunInv(names, tr, k - 1);
      hide Next, Inv;
      assert Next(names, tr[k - 1], tr[k]);
      NextInv(names, tr[k - 1], tr[k]);
    }
  }

  // ---- what every run guarantees -----------------------------------------

  predicate Existing(life: Life) { life.Alive? || life.Dying? }

  predicate Destroying(life: Life) { life.Dying? || life.Gone? }

  /** No component whose object still exists depends on one whose destruction has begun. */
  ghost predicate Safe(s: System) {
    forall c, d :: Edge(s.Deps(), c, d) && c in s.Info() && d in s.Info() && Existing(s.Info()[c].life)
                   ==> !Destroying(s.Info()[d].life)
  }

  lemma ClearingIsSafe(names: set<Name>, deps: Graph, p: StageSwitching.State, c: Name, d: Name)
    requires Inv(names, Switching(Clearing, deps, p)) && c in names && d in names && Edge(deps, c, d)
    requires Destroying(p.info[d].life)
    ensures !Existing(p.info[c].life)
  {
    var ph := PhaseOf(Clearing, deps);
    assert StageSwitching.TaskOk(ph, names, p, d) && StageSwitching.TaskOk(ph, names, p, c);
    StageSwitching.UncancellableAlwaysOrdered(ph, names, p);
    DependentsConverse(deps, names);
    assert Edge(ph.waits, d, c);
  }

  lemma InvSafe(names: set<Name>, s: System)
    requires Inv(names, s)
    ensures Safe(s)
  {
    forall c, d | Edge(s.Deps(), c, d) && c in s.Info() && d in s.Info() && Existing(s.Info()[c].life)
      ensures !Destroying(s.Info()[d].life)
    {
      match s
      case Booting(l) => LoadedComponents(names, l);
      case Switching(kind, deps, p) =>
        assert StageSwitching.TaskOk(PhaseOf(kind, deps), names, p, d);
        if kind.Clearing? && Destroying(p.info[d].life) {
          ClearingIsSafe(names, deps, p, c, d);
        }
      case _ =>
    }
  }

  /** In every run, at every moment: no component is destroyed while an existing component depends on it. */
  lemma NeverDestroyedUnderDependents(names: set<Name>, tr: seq<System>, k: nat)
    requires Run(names, tr) && k < |tr|
    ensures Safe(tr[k])
  {
    hide Next, Inv, Safe;
    RunInv(names, tr, k);
    InvSafe(names, tr[k]);
  }

  /** The clearing phase never starts with a component already at its target stage, so each of its
      waits really waits for a destruction. */
  lemma ClearingWaitsAreReal(names: set<Name>, tr: seq<System>, k: nat, c: Name)
    requires Run(names, tr) && k + 1 < |tr| && c in names
    requires tr[k + 1].Switching? && tr[k + 1].kind.Clearing? && !(tr[k].Switching? && tr[k].kind.Clearing?)
    ensures c in tr[k + 1].p.info && tr[k + 1].p.info[c].stage == ReadyForClearing
  {
    RunInv(names, tr, k);
    assert Next(names, tr[k], tr[k + 1]);
    hide Inv;
    FinishedPhase(names, tr[k].kind, tr[k].deps, tr[k].p);
  }

  /** When everything is cleared, no component object is left. */
  lemma ClearedMeansAllGone(names: set<Name>, tr: seq<System>, k: nat, c: Name)
    requires Run(names, tr) && k < |tr| && tr[k].Cleared? && c in names
    ensures c in tr[k].info && tr[k].info[c].stage == Null
    ensures tr[k].info[c].life.Unborn? || tr[k].info[c].life.Gone?
  {
    hide Next;
    RunInv(names, tr, k);
  }

  /** The service runs only with every component constructed and told that all are loaded. */
  lemma ServingMeansAllRunning(names: set<Name>, tr: seq<System>, k: nat, c: Name)
    requires Run(names, tr) && k < |tr| && tr[k].Serving? && c in names
    ensures c in tr[k].info && tr[k].info[c].life.Alive? && tr[k].info[c].stage == Running
  {
    hide Next;
    RunInv(names, tr, k);
  }

  // ---- progress ----------------------------------------------------------

  lemma PhaseCanStart(names: set<Name>, kind: Kind, deps: Graph, info: Infos) returns (s': System)
    requires info.Keys == names && OverNodes(deps, names)
    ensures Enters(kind, deps, info, s')
  {
    DependentsConverse(deps, names);
    var waits := PhaseOf(kind, deps).waits;
    s' := Switching(kind, deps, StageSwitching.State(
                      map c | c in info :: info[c].WithCancelled(false),
                      map c | c in info :: StageSwitching.Waiting(StageSwitching.OrderOf(waits[c])), false, []));
  }

  lemma PhaseAdvances(names: set<Name>, s: System) returns (s': System)
    requires s.Switching? && Inv(names, s)
    ensures Next(names, s, s')
  {
    var ph := PhaseOf(s.kind, s.deps);
    DependentsConverse(s.deps, names);
    ConverseAcyclic(s.deps, Dependents(s.deps));
    if !StageSwitching.AllDone(s.p) {
      var c, p' := StageSwitching.SomeTaskSteps(ph, names, s.p);
      hide StageSwitching.Step, StageSwitching.Inv, Starts;
      assert StageSwitching.Next(ph, names, s.p, p');
      s' := s.(p := p');
    } else {
      FinishedPhase(names, s.kind, s.deps, s.p);
      hide StageSwitching.Next, StageSwitching.Inv, Starts;
      if s.kind.Clearing? {
        s' := Cleared(s.deps, s.p.info);
      } else if s.kind.Stopping? {
        s' := PhaseCanStart(names, Clearing, s.deps, s.p.info);
      } else if s.p.aborted {
        s' := PhaseCanStart(names, Stopping, s.deps, s.p.info);
      } else {
        s' := Serving(s.deps, s.p.info);
      }
    }
  }

  lemma BootAdvances(names: set<Name>, s: System) returns (s': System)
    requires s.Booting? && Inv(names, s)
    ensures Next(names, s, s')
  {
    LoadedComponents(names, s.l);
    if !Loading.AllDone(s.l) {
      var a := Loading.SomeTaskProceeds(names, s.l);
      var l' := Loading.UnblockedSteps(names, s.l, a);
      hide Loading.Step, Loading.Inv, Starts;
      assert Loading.Next(names, s.l, l');
      s' := Booting(l');
    } else {
      hide Loading.Next, Loading.Inv, Starts;
      s' := PhaseCanStart(names, if LoadFailed(s.l) then Stopping else Loaded, s.l.deps, s.l.info);
    }
  }

  /** No reachable state is stuck before everything is cleared, whatever constructors and handlers do. */
  lemma AdvancesUntilCleared(names: set<Name>, tr: seq<System>, k: nat)
    requires Run(names, tr) && k < |tr|
    ensures tr[k].Cleared? || exists s' :: Next(names, tr[k], s')
  {
    hide Next;
    RunInv(names, tr, k);
    match tr[k]
    case Booting(_) => var s' := BootAdvances(names, tr[k]);
    case Switching(_, _, _) => var s' := PhaseAdvances(names, tr[k]);
    case Serving(deps, info) =>
      var s' := PhaseCanStart(names, Stopping, deps, info);
      ServingStops(names, tr[k], s');
    case Cleared(_, _) =>
  }

  lemma ServingStops(names: set<Name>, s: System, s': System)
    requires s.Serving? && Enters(Stopping, s.deps, s.info, s')
    ensures Next(names, s, s')
  {
  }
}
