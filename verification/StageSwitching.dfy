/** One lifetime phase (`ProcessAllComponentLifetimeStageSwitchings`): a task per component
    waits until every neighbour has reached the next stage, runs its handler, and moves its
    own component to the next stage. Steps interleave freely. */
module StageSwitching {
  import opened Graphs
  import opened Components

  /** `waits[c]` are the components whose stage `c` waits for: what `c` depends on, or, for an
      inverted phase, what depends on `c`. `clears` marks the phase whose handler destroys. */
  datatype Phase = Phase(next: Stage, waits: Graph, cancellable: bool, clears: bool)

  datatype Event = Began(name: Name) | Ended(name: Name)

  datatype Pc =
    | Waiting(todo: seq<Name>)     // neighbours left, in the order of the set iteration
    | Handling                     // the handler is running
    | Flunked                      // it threw in a cancellable phase: about to flag itself
    | Raising                      // about to exchange the phase's cancelled flag
    | Spreading(left: set<Name>)   // CancelComponentLifetimeStageSwitching
    | Settling(threw: bool)        // about to SetStage(next)
    | Done(failed: bool)

  /** `log` records when handlers began and ended. */
  datatype State = State(info: Infos, pc: map<Name, Pc>, aborted: bool, log: seq<Event>)

  ghost predicate Typed(ph: Phase, names: set<Name>, s: State) {
    s.info.Keys == names && s.pc.Keys == names && OverNodes(ph.waits, names)
  }

  /** The elements of a set in the order of its iteration, each once. */
  ghost predicate Enumerates(order: seq<Name>, s: set<Name>) {
    NoDuplicates(order) && forall d :: d in order <==> d in s
  }

  ghost function OrderOf(s: set<Name>): (order: seq<Name>)
    ensures Enumerates(order, s)
  {
    if s == {} then [] else var x :| x in s; [x] + OrderOf(s - {x})
  }

  ghost predicate Init(ph: Phase, names: set<Name>, s: State) {
    && Typed(ph, names, s)
    && !s.aborted && s.log == []
    && (forall c :: c in names ==> s.pc[c].Waiting? && Enumerates(s.pc[c].todo, ph.waits[c]))
    && (forall c :: c in names ==> !s.info[c].cancelled && s.info[c].stage != ph.next)
    && (forall c :: c in names ==> s.info[c].life.Unborn? || s.info[c].life.Alive?)
  }

  // ---- steps -------------------------------------------------------------

  function Goto(s: State, c: Name, pc: Pc): State { s.(pc := s.pc[c := pc]) }

  function Touch(s: State, c: Name, i: Info): State { s.(info := s.info[c := i]) }

  /** The wait predicate of `WaitStage`: the flag of the neighbour counts, and a raised flag ends
      the wait like success does. */
  predicate Passes(ph: Phase, s: State, d: Name)
    requires d in s.info
  {
    s.info[d].stage == ph.next || s.info[d].cancelled
  }

  function BeginStep(ph: Phase, s: State, c: Name): State
    requires c in s.info
  {
    var i := if ph.clears then s.info[c].Extracted() else s.info[c];
    Goto(Touch(s, c, i), c, Handling).(log := s.log + [Began(c)])
  }

  function EndStep(ph: Phase, s: State, c: Name, threw: bool): State
    requires c in s.info
  {
    var i := if ph.clears then s.info[c].Destroyed() else s.info[c];
    Goto(Touch(s, c, i), c, if threw && ph.cancellable then Flunked else Settling(false)).(log := s.log + [Ended(c)])
  }

  ghost predicate Step(ph: Phase, names: set<Name>, s: State, c: Name, s': State)
    requires Typed(ph, names, s)
  {
    && c in names
    && match s.pc[c]
       case Waiting(todo) =>
         if todo == [] then s' == BeginStep(ph, s, c)
         else todo[0] in names && Passes(ph, s, todo[0]) && s' == Goto(s, c, Waiting(todo[1..]))
       case Handling =>
         || s' == EndStep(ph, s, c, false)
         || (!s.info[c].life.Unborn? && s' == EndStep(ph, s, c, true))   // an absent component has no handler
       case Flunked => s' == Goto(Touch(s, c, s.info[c].WithCancelled(true)), c, Raising)
       case Raising =>
         s' == if s.aborted then Goto(s, c, Settling(true)) else Goto(s, c, Spreading(names)).(aborted := true)
       case Spreading(left) =>
         if left == {} then s' == Goto(s, c, Settling(true))
         else exists d :: d in left && d in names &&
                          s' == Goto(Touch(s, d, s.info[d].WithCancelled(true)), c, Spreading(left - {d}))
       case Settling(threw) => s' == Goto(Touch(s, c, s.info[c].WithStage(ph.next)), c, Done(threw))
       case Done(_) => false
  }

  ghost predicate Next(ph: Phase, names: set<Name>, s: State, s': State) {
    Typed(ph, names, s) && exists c :: Step(ph, names, s, c, s')
  }

  /** A finite run: consecutive states are related by one step of one task. */
  ghost predicate Run(ph: Phase, names: set<Name>, tr: seq<State>) {
    && |tr| > 0 && Init(ph, names, tr[0])
    && (forall i :: 0 <= i < |tr| ==> Typed(ph, names, tr[i]))
    && (forall i, j :: 0 <= i < j < |tr| && j == i + 1 ==> Next(ph, names, tr[i], tr[j]))
  }

  ghost predicate AllDone(s: State) { forall c :: c in s.pc ==> s.pc[c].Done? }

  // ---- invariant ---------------------------------------------------------

  /** Some handler has thrown in a cancellable phase. */
  ghost predicate Disturbed(s: State) {
    s.aborted || exists c :: Failing(s, c)
  }

  ghost predicate Failing(s: State, c: Name) {
    c in s.pc && (s.pc[c].Flunked? || s.pc[c].Raising?)
  }

  ghost predicate LifeOk(ph: Phase, pc: Pc, life: Life) {
    if !ph.clears || pc.Waiting? then life.Unborn? || life.Alive?
    else if pc.Handling? then life.Unborn? || life.Dying?
    else life.Unborn? || life.Gone?
  }

  ghost predicate LogCounts(pc: Pc, log: seq<Event>, c: Name) {
    && multiset(log)[Began(c)] == (if pc.Waiting? then 0 else 1)
    && multiset(log)[Ended(c)] == (if pc.Waiting? || pc.Handling? then 0 else 1)
  }

  /** Everything `c` waits for and has already gone past is at the next stage. */
  ghost predicate Waited(ph: Phase, names: set<Name>, s: State, c: Name)
    requires Typed(ph, names, s) && c in names
  {
    forall d :: d in ph.waits[c] && !(s.pc[c].Waiting? && d in s.pc[c].todo) ==> s.info[d].stage == ph.next
  }

  ghost predicate TaskOk(ph: Phase, names: set<Name>, s: State, c: Name)
    requires Typed(ph, names, s) && c in names
  {
    && (s.info[c].stage == ph.next <==> s.pc[c].Done?)
    && (s.info[c].cancelled ==> s.aborted || s.pc[c].Raising?)
    && LifeOk(ph, s.pc[c], s.info[c].life)
    && LogCounts(s.pc[c], s.log, c)
    && (Disturbed(s) || Waited(ph, names, s, c))
    && match s.pc[c]
       case Waiting(todo) => forall d :: d in todo ==> d in ph.waits[c]
       case Handling => true
       case Flunked => ph.cancellable
       case Raising => ph.cancellable
       case Spreading(left) => s.aborted && left <= names
       case Settling(threw) => threw ==> s.aborted
       case Done(threw) => threw ==> s.aborted
  }

  /** Every handler that began did so after the handlers of all it waits for had ended. */
  ghost predicate Ordered(ph: Phase, log: seq<Event>) {
    forall i, d :: 0 <= i < |log| && log[i].Began? && Edge(ph.waits, log[i].name, d) ==> Ended(d) in log[..i]
  }

  ghost predicate Inv(ph: Phase, names: set<Name>, s: State) {
    && Typed(ph, names, s)
    && (s.aborted ==> ph.cancellable)
    && (Disturbed(s) || Ordered(ph, s.log))
    && (forall c {:trigger TaskOk(ph, names, s, c)} :: c in names ==> TaskOk(ph, names, s, c))
  }

  lemma InitInv(ph: Phase, names: set<Name>, s: State)
    requires Init(ph, names, s)
    ensures Inv(ph, names, s)
  {
  }

  // ---- every step keeps the invariant ------------------------------------

  ghost predicate LogGrows(log: seq<Event>, log': seq<Event>, c: Name) {
    log' == log || log' == log + [Began(c)] || log' == log + [Ended(c)]
  }

  /** What a step of `c`'s task may change. */
  ghost predicate Frame(ph: Phase, names: set<Name>, s: State, c: Name, s': State)
    requires Typed(ph, names, s)
  {
    && Typed(ph, names, s') && c in names
    && (forall x :: x in names && x != c ==> s'.pc[x] == s.pc[x])
    && (forall x :: x in names && x != c ==>
          s'.info[x] == s.info[x] || (s'.aborted && s'.info[x] == s.info[x].WithCancelled(true)))
    && (s.info[c].stage == ph.next ==> s'.info[c].stage == ph.next)
    && (s.aborted ==> s'.aborted)
    && (Disturbed(s) ==> Disturbed(s'))
    && LogGrows(s.log, s'.log, c)
  }

  lemma OtherTask(ph: Phase, names: set<Name>, s: State, c: Name, s': State, x: Name)
    requires Typed(ph, names, s) && x in names && TaskOk(ph, names, s, x)
    requires Frame(ph, names, s, c, s') && x != c
    ensures TaskOk(ph, names, s', x)
  {
    assert LogCounts(s'.pc[x], s'.log, x);
    if !Disturbed(s') {
      forall d | d in ph.waits[x] && !(s'.pc[x].Waiting? && d in s'.pc[x].todo) ensures s'.info[d].stage == ph.next {
        assert s.info[d].stage == ph.next;
      }
    }
  }

  lemma StepKeeps(ph: Phase, names: set<Name>, s: State, c: Name, s': State)
    requires Inv(ph, names, s) && Frame(ph, names, s, c, s')
    requires TaskOk(ph, names, s', c)
    requires s'.aborted ==> ph.cancellable
    requires Disturbed(s') || Ordered(ph, s'.log)
    ensures Inv(ph, names, s')
  {
    forall x | x in names ensures TaskOk(ph, names, s', x) {
      if x != c { OtherTask(ph, names, s, c, s', x); }
    }
  }

  /** Flagging oneself, raising the alarm and settling all leave an undisturbed phase undisturbed or disturb it. */
  lemma DisturbanceLasts(ph: Phase, names: set<Name>, s: State, c: Name, s': State)
    requires Typed(ph, names, s) && Typed(ph, names, s') && c in names
    requires forall x :: x in names && x != c ==> s'.pc[x] == s.pc[x]
    requires s.aborted ==> s'.aborted
    requires Failing(s, c) ==> Failing(s', c) || s'.aborted
    ensures Disturbed(s) ==> Disturbed(s')
  {
    if !s.aborted && Disturbed(s) {
      var x :| Failing(s, x);
      assert Failing(s', x) || s'.aborted;
    }
  }

  /** In an undisturbed phase nobody's cancel flag is up. */
  lemma UndisturbedUncancelled(ph: Phase, names: set<Name>, s: State, d: Name)
    requires Inv(ph, names, s) && !Disturbed(s) && d in names
    ensures !s.info[d].cancelled
  {
    assert TaskOk(ph, names, s, d);
    assert !Failing(s, d);
  }

  lemma PassInv(ph: Phase, names: set<Name>, s: State, c: Name)
    requires Inv(ph, names, s) && c in names && s.pc[c].Waiting? && s.pc[c].todo != []
    requires s.pc[c].todo[0] in names && Passes(ph, s, s.pc[c].todo[0])
    ensures Inv(ph, names, Goto(s, c, Waiting(s.pc[c].todo[1..])))
  {
    var s' := Goto(s, c, Waiting(s.pc[c].todo[1..]));
    DisturbanceLasts(ph, names, s, c, s');
    DisturbanceLasts(ph, names, s', c, s);
    assert TaskOk(ph, names, s, c);
    if !Disturbed(s) {
      UndisturbedUncancelled(ph, names, s, s.pc[c].todo[0]);
      assert Waited(ph, names, s', c);
    }
    StepKeeps(ph, names, s, c, s');
  }

  lemma BeginInv(ph: Phase, names: set<Name>, s: State, c: Name)
    requires Inv(ph, names, s) && c in names && s.pc[c] == Waiting([])
    ensures Inv(ph, names, BeginStep(ph, s, c))
  {
    var s' := BeginStep(ph, s, c);
    DisturbanceLasts(ph, names, s, c, s');
    DisturbanceLasts(ph, names, s', c, s);
    assert TaskOk(ph, names, s, c);
    if !Disturbed(s) {
      forall d | Edge(ph.waits, c, d) ensures Ended(d) in s.log {
        assert TaskOk(ph, names, s, d);
      }
      BeganInOrder(ph, s.log, c);
      assert Waited(ph, names, s', c);
    }
    StepKeeps(ph, names, s, c, s');
  }

  lemma BeganInOrder(ph: Phase, log: seq<Event>, c: Name)
    requires Ordered(ph, log)
    requires forall d :: Edge(ph.waits, c, d) ==> Ended(d) in log
    ensures Ordered(ph, log + [Began(c)])
  {
    var log' := log + [Began(c)];
    forall i, d | 0 <= i < |log'| && log'[i].Began? && Edge(ph.waits, log'[i].name, d) ensures Ended(d) in log'[..i] {
      if i < |log| {
        assert log'[..i] == log[..i];
      } else {
        assert log'[..i] == log;
      }
    }
  }

  lemma EndedInOrder(ph: Phase, log: seq<Event>, c: Name)
    requires Ordered(ph, log)
    ensures Ordered(ph, log + [Ended(c)])
  {
    var log' := log + [Ended(c)];
    forall i, d | 0 <= i < |log'| && log'[i].Began? && Edge(ph.waits, log'[i].name, d) ensures Ended(d) in log'[..i] {
      assert log'[..i] == log[..i];
    }
  }

  lemma EndInv(ph: Phase, names: set<Name>, s: State, c: Name, threw: bool)
    requires Inv(ph, names, s) && c in names && s.pc[c].Handling?
    ensures Inv(ph, names, EndStep(ph, s, c, threw))
  {
    var s' := EndStep(ph, s, c, threw);
    DisturbanceLasts(ph, names, s, c, s');
    assert TaskOk(ph, names, s, c);
    if !Disturbed(s) {
      EndedInOrder(ph, s.log, c);
      assert Waited(ph, names, s', c);
    }
    StepKeeps(ph, names, s, c, s');
  }

  /** Steps that move only the task itself, inside the failure path. */
  lemma MoveInv(ph: Phase, names: set<Name>, s: State, c: Name, i: Info, pc: Pc, aborted: bool)
    requires Inv(ph, names, s) && c in names
    requires !s.pc[c].Waiting? && !s.pc[c].Handling? && !s.pc[c].Done?
    requires !pc.Waiting? && !pc.Handling?
    requires i.life == s.info[c].life && (i.stage == ph.next <==> pc.Done?)
    requires i.cancelled ==> aborted || pc.Raising?
    requires (s.aborted ==> aborted) && (aborted ==> ph.cancellable)
    requires pc.Flunked? || pc.Raising? ==> ph.cancellable
    requires pc.Spreading? ==> aborted && pc.left <= names
    requires pc.Settling? && pc.threw ==> aborted
    requires pc.Done? && pc.failed ==> aborted
    requires Failing(s, c) ==> pc.Flunked? || pc.Raising? || aborted
    ensures Inv(ph, names, Goto(Touch(s, c, i), c, pc).(aborted := aborted))
  {
    var s' := Goto(Touch(s, c, i), c, pc).(aborted := aborted);
    DisturbanceLasts(ph, names, s, c, s');
    assert TaskOk(ph, names, s, c);
    if !Disturbed(s) {
      assert Waited(ph, names, s', c);
    }
    StepKeeps(ph, names, s, c, s');
  }

  lemma SpreadInv(ph: Phase, names: set<Name>, s: State, c: Name, d: Name)
    requires Inv(ph, names, s) && c in names && s.pc[c].Spreading? && d in s.pc[c].left && d in names
    ensures Inv(ph, names, Goto(Touch(s, d, s.info[d].WithCancelled(true)), c, Spreading(s.pc[c].left - {d})))
  {
    var s' := Goto(Touch(s, d, s.info[d].WithCancelled(true)), c, Spreading(s.pc[c].left - {d}));
    assert TaskOk(ph, names, s, c);
    assert Disturbed(s');
    StepKeeps(ph, names, s, c, s');
  }

  lemma SpreadingInv(ph: Phase, names: set<Name>, s: State, c: Name, s': State)
    requires Inv(ph, names, s) && Step(ph, names, s, c, s') && s.pc[c].Spreading?
    ensures Inv(ph, names, s')
  {
    assert TaskOk(ph, names, s, c);
    var left := s.pc[c].left;
    if left == {} {
      MoveInv(ph, names, s, c, s.info[c], Settling(true), s.aborted);
      assert Touch(s, c, s.info[c]) == s;
    } else {
      var d :| d in left && d in names &&
               s' == Goto(Touch(s, d, s.info[d].WithCancelled(true)), c, Spreading(left - {d}));
      SpreadInv(ph, names, s, c, d);
    }
  }

  lemma FailurePathInv(ph: Phase, names: set<Name>, s: State, c: Name, s': State)
    requires Inv(ph, names, s) && Step(ph, names, s, c, s')
    requires !s.pc[c].Waiting? && !s.pc[c].Handling?
    ensures Inv(ph, names, s')
  {
    assert TaskOk(ph, names, s, c);
    assert Touch(s, c, s.info[c]) == s;
    match s.pc[c]
    case Flunked => MoveInv(ph, names, s, c, s.info[c].WithCancelled(true), Raising, s.aborted);
    case Raising =>
      MoveInv(ph, names, s, c, s.info[c], if s.aborted then Settling(true) else Spreading(names), true);
    case Spreading(_) => SpreadingInv(ph, names, s, c, s');
    case Settling(threw) => MoveInv(ph, names, s, c, s.info[c].WithStage(ph.next), Done(threw), s.aborted);
  }

  lemma NextInv(ph: Phase, names: set<Name>, s: State, s': State)
    requires Inv(ph, names, s) && Next(ph, names, s, s')
    ensures Inv(ph, names, s')
  {
    var c :| Step(ph, names, s, c, s');
    match s.pc[c]
    case Waiting(todo) =>
      if todo == [] { BeginInv(ph, names, s, c); } else { PassInv(ph, names, s, c); }
    case Handling =>
      if s' == EndStep(ph, s, c, false) { EndInv(ph, names, s, c, false); } else { EndInv(ph, names, s, c, true); }
    case _ => FailurePathInv(ph, names, s, c, s');
  }

  lemma {:induction false} RunInv(ph: Phase, names: set<Name>, tr: seq<State>, k: nat)
    requires Run(ph, names, tr) && k < |tr|
    ensures Inv(ph, names, tr[k])
  {
    if k == 0 {
      InitInv(ph, names, tr[0]);
    } else {
      RunInv(ph, names, tr, k - 1);
      assert Next(ph, names, tr[k - 1], tr[k]);
      NextInv(ph, names, tr[k - 1], tr[k]);
    }
  }

  // ---- what a phase guarantees -------------------------------------------

  /** Over an acyclic graph some task can always step until all are done, whatever the handlers do. */
  lemma SomeTaskSteps(ph: Phase, names: set<Name>, s: State) returns (c: Name, s': State)
    requires Inv(ph, names, s) && Acyclic(ph.waits) && !AllDone(s)
    ensures Step(ph, names, s, c, s')
  {
    var unfinished := set x | x in names && !s.pc[x].Done?;
    var some :| some in s.pc && !s.pc[some].Done?;
    assert some in unfinished;
    c := HasSink(ph.waits, unfinished);
    assert TaskOk(ph, names, s, c);
    match s.pc[c]
    case Waiting(todo) =>
      if todo == [] {
        s' := BeginStep(ph, s, c);
      } else {
        assert Edge(ph.waits, c, todo[0]);
        assert TaskOk(ph, names, s, todo[0]);
        s' := Goto(s, c, Waiting(todo[1..]));
      }
    case Handling => s' := EndStep(ph, s, c, false);
    case Flunked => s' := Goto(Touch(s, c, s.info[c].WithCancelled(true)), c, Raising);
    case Raising =>
      s' := if s.aborted then Goto(s, c, Settling(true)) else Goto(s, c, Spreading(names)).(aborted := true);
    case Spreading(left) =>
      if left == {} {
        s' := Goto(s, c, Settling(true));
      } else {
        var d :| d in left;
        s' := Goto(Touch(s, d, s.info[d].WithCancelled(true)), c, Spreading(left - {d}));
      }
    case Settling(threw) => s' := Goto(Touch(s, c, s.info[c].WithStage(ph.next)), c, Done(threw));
  }

  lemma NeverDeadlocks(ph: Phase, names: set<Name>, tr: seq<State>, k: nat)
    requires Run(ph, names, tr) && k < |tr| && Acyclic(ph.waits)
    ensures AllDone(tr[k]) || exists s' :: Next(ph, names, tr[k], s')
  {
    RunInv(ph, names, tr, k);
    if !AllDone(tr[k]) {
      var c, s' := SomeTaskSteps(ph, names, tr[k]);
      assert Next(ph, names, tr[k], s');
    }
  }

  /** A finished phase has every component at the next stage, even when handlers threw. */
  lemma FinishedAtNextStage(ph: Phase, names: set<Name>, tr: seq<State>, c: Name)
    requires Run(ph, names, tr) && AllDone(tr[|tr| - 1]) && c in names
    ensures tr[|tr| - 1].info[c].stage == ph.next
  {
    RunInv(ph, names, tr, |tr| - 1);
    assert TaskOk(ph, names, tr[|tr| - 1], c);
  }

  /** If the phase returns normally, each handler ran exactly once, after the handlers of everything it waits for. */
  lemma NormalReturnOrdersHandlers(ph: Phase, names: set<Name>, tr: seq<State>, c: Name)
    requires Run(ph, names, tr) && c in names
    requires AllDone(tr[|tr| - 1]) && !tr[|tr| - 1].aborted
    ensures var log := tr[|tr| - 1].log;
            && multiset(log)[Began(c)] == 1 && multiset(log)[Ended(c)] == 1
            && Ordered(ph, log)
  {
    RunInv(ph, names, tr, |tr| - 1);
    var s := tr[|tr| - 1];
    assert TaskOk(ph, names, s, c);
    assert forall x :: !Failing(s, x);
  }

  /** A phase that cannot be cancelled keeps the order at every moment, not only on return. */
  lemma UncancellableAlwaysOrdered(ph: Phase, names: set<Name>, s: State)
    requires Inv(ph, names, s) && !ph.cancellable
    ensures !Disturbed(s) && Ordered(ph, s.log)
  {
    forall x | x in names ensures !Failing(s, x) { assert TaskOk(ph, names, s, x); }
  }

  /** Handlers run at most once at any moment of any phase. */
  lemma HandlersRunAtMostOnce(ph: Phase, names: set<Name>, tr: seq<State>, k: nat, c: Name)
    requires Run(ph, names, tr) && k < |tr| && c in names
    ensures multiset(tr[k].log)[Ended(c)] <= multiset(tr[k].log)[Began(c)] <= 1
  {
    RunInv(ph, names, tr, k);
    assert TaskOk(ph, names, tr[k], c);
  }

  // ---- termination -------------------------------------------------------

  /** Steps a task still has to take at most, among `n` components. */
  function Rank(pc: Pc, n: nat): nat {
    match pc
    case Waiting(todo) => |todo| + n + 6
    case Handling => n + 5
    case Flunked => n + 4
    case Raising => n + 3
    case Spreading(left) => |left| + 2
    case Settling(_) => 1
    case Done(_) => 0
  }

  ghost function Total(pc: map<Name, Pc>, names: set<Name>, n: nat): nat
    requires names <= pc.Keys
  {
    if names == {} then 0
    else var x :| x in names; Rank(pc[x], n) + Total(pc, names - {x}, n)
  }

  lemma {:induction false} TotalSplit(pc: map<Name, Pc>, names: set<Name>, n: nat, c: Name)
    requires names <= pc.Keys && c in names
    ensures Total(pc, names, n) == Rank(pc[c], n) + Total(pc, names - {c}, n)
    decreases names
  {
    var x :| x in names && Total(pc, names, n) == Rank(pc[x], n) + Total(pc, names - {x}, n);
    if x != c {
      TotalSplit(pc, names - {x}, n, c);
      TotalSplit(pc, names - {c}, n, x);
      assert names - {x} - {c} == names - {c} - {x};
    }
  }

  lemma {:induction false} TotalFrame(pc: map<Name, Pc>, pc': map<Name, Pc>, names: set<Name>, n: nat)
    requires names <= pc.Keys && names <= pc'.Keys
    requires forall x :: x in names ==> pc'[x] == pc[x]
    ensures Total(pc', names, n) == Total(pc, names, n)
    decreases names
  {
    if names != {} {
      var x :| x in names;
      TotalSplit(pc, names, n, x);
      TotalSplit(pc', names, n, x);
      TotalFrame(pc, pc', names - {x}, n);
    }
  }

  /** How the two handler steps move their task. */
  lemma HandlerPcs(ph: Phase, s: State, c: Name, threw: bool)
    requires c in s.info
    ensures BeginStep(ph, s, c).pc == s.pc[c := Handling]
    ensures EndStep(ph, s, c, threw).pc == s.pc[c := if threw && ph.cancellable then Flunked else Settling(false)]
  {
  }

  lemma HandlerRanksDown(ph: Phase, names: set<Name>, s: State, c: Name, s': State) returns (pc: Pc)
    requires Typed(ph, names, s) && Step(ph, names, s, c, s') && (s.pc[c].Handling? || s.pc[c] == Waiting([]))
    ensures s'.pc == s.pc[c := pc] && Rank(pc, |names|) < Rank(s.pc[c], |names|)
  {
    hide BeginStep, EndStep;
    HandlerPcs(ph, s, c, false);
    HandlerPcs(ph, s, c, true);
    pc := s'.pc[c];
  }

  lemma SpreadingRanksDown(ph: Phase, names: set<Name>, s: State, c: Name, s': State) returns (pc: Pc)
    requires Typed(ph, names, s) && Step(ph, names, s, c, s') && s.pc[c].Spreading?
    ensures s'.pc == s.pc[c := pc] && Rank(pc, |names|) < Rank(s.pc[c], |names|)
  {
    var left := s.pc[c].left;
    if left == {} {
      pc := Settling(true);
    } else {
      var d :| d in left && d in names &&
               s' == Goto(Touch(s, d, s.info[d].WithCancelled(true)), c, Spreading(left - {d}));
      pc := Spreading(left - {d});
    }
  }

  lemma StepRanksDown(ph: Phase, names: set<Name>, s: State, c: Name, s': State) returns (pc: Pc)
    requires Typed(ph, names, s) && Step(ph, names, s, c, s')
    ensures s'.pc == s.pc[c := pc] && Rank(pc, |names|) < Rank(s.pc[c], |names|)
  {
    hide BeginStep, EndStep;
    match s.pc[c]
    case Waiting(todo) =>
      if todo == [] { pc := HandlerRanksDown(ph, names, s, c, s'); } else { pc := Waiting(todo[1..]); }
    case Handling => pc := HandlerRanksDown(ph, names, s, c, s');
    case Flunked => pc := Raising;
    case Raising => pc := if s.aborted then Settling(true) else Spreading(names);
    case Spreading(_) => pc := SpreadingRanksDown(ph, names, s, c, s');
    case Settling(threw) => pc := Done(threw);
  }

  lemma TotalDown(pc: map<Name, Pc>, names: set<Name>, n: nat, c: Name, pcc: Pc)
    requires pc.Keys == names && c in names && Rank(pcc, n) < Rank(pc[c], n)
    ensures Total(pc[c := pcc], names, n) < Total(pc, names, n)
  {
    TotalSplit(pc, names, n, c);
    TotalSplit(pc[c := pcc], names, n, c);
    TotalFrame(pc, pc[c := pcc], names - {c}, n);
  }

  /** One entry moved to a smaller rank. */
  ghost predicate Descends(names: set<Name>, pc: map<Name, Pc>, pc': map<Name, Pc>)
    requires pc.Keys == names
  {
    exists c, p :: c in names && pc' == pc[c := p] && Rank(p, |names|) < Rank(pc[c], |names|)
  }

  lemma NextDescends(ph: Phase, names: set<Name>, s: State, s': State)
    requires Next(ph, names, s, s')
    ensures s.pc.Keys == names && Descends(names, s.pc, s'.pc)
  {
    var c :| Step(ph, names, s, c, s');
    var pc := StepRanksDown(ph, names, s, c, s');
  }

  lemma DescentLowersTotal(names: set<Name>, pc: map<Name, Pc>, pc': map<Name, Pc>)
    requires pc.Keys == names && Descends(names, pc, pc')
    ensures pc'.Keys == names && Total(pc', names, |names|) < Total(pc, names, |names|)
  {
    var c, p :| c in names && pc' == pc[c := p] && Rank(p, |names|) < Rank(pc[c], |names|);
    TotalDown(pc, names, |names|, c, p);
  }

  lemma NextLowersTotal(ph: Phase, names: set<Name>, s: State, s': State)
    requires Next(ph, names, s, s')
    ensures s.pc.Keys == names && s'.pc.Keys == names
    ensures Total(s'.pc, names, |names|) < Total(s.pc, names, |names|)
  {
    NextDescends(ph, names, s, s');
    DescentLowersTotal(names, s.pc, s'.pc);
  }

  lemma {:induction false} TotalAtMost(pc: map<Name, Pc>, names: set<Name>, n: nat, most: nat)
    requires names <= pc.Keys && forall x :: x in names ==> Rank(pc[x], n) <= most
    ensures Total(pc, names, n) <= |names| * most
    decreases names
  {
    hide Rank, Total;
    if names == {} {
      NoTotal(pc, n);
    } else {
      var x :| x in names;
      var rest := names - {x};
      TotalSplit(pc, names, n, x);
      TotalAtMost(pc, rest, n, most);
      assert |names| == |rest| + 1;
      OneMoreTimes(|rest|, most);
    }
  }

  lemma NoTotal(pc: map<Name, Pc>, n: nat)
    ensures Total(pc, {}, n) == 0
  {
  }

  lemma OneMoreTimes(m: nat, k: nat)
    ensures (m + 1) * k == m * k + k
  {
  }

  /** What a phase over `n` components can take at most. */
  function StepBound(n: nat): nat { n * (2 * n + 6) }

  lemma OrderIsShort(order: seq<Name>, s: set<Name>, names: set<Name>)
    requires Enumerates(order, s) && s <= names
    ensures |order| <= |names|
  {
    if |order| > |names| {
      var i, j := Repeats(order, names);
    }
  }

  lemma InitialTotal(ph: Phase, names: set<Name>, s: State)
    requires Init(ph, names, s)
    ensures Total(s.pc, names, |names|) <= StepBound(|names|)
  {
    forall x | x in names ensures Rank(s.pc[x], |names|) <= 2 * |names| + 6 {
      OrderIsShort(s.pc[x].todo, ph.waits[x], names);
    }
    TotalAtMost(s.pc, names, |names|, 2 * |names| + 6);
  }

  lemma {:induction false} StepsUseUpTotal(ph: Phase, names: set<Name>, tr: seq<State>, k: nat)
    requires Run(ph, names, tr) && k < |tr|
    ensures k + Total(tr[k].pc, names, |names|) <= Total(tr[0].pc, names, |names|)
  {
    hide Next, Init, Total;
    if k > 0 {
      StepsUseUpTotal(ph, names, tr, k - 1);
      assert Next(ph, names, tr[k - 1], tr[k]);
      NextLowersTotal(ph, names, tr[k - 1], tr[k]);
    }
  }

  /** No run takes more steps than the number of components allows; with NeverDeadlocks, every run
      that cannot be extended has finished all tasks. */
  lemma RunsAreBounded(ph: Phase, names: set<Name>, tr: seq<State>)
    requires Run(ph, names, tr)
    ensures |tr| - 1 <= StepBound(|names|)
  {
    hide Next, Init, Total;
    StepsUseUpTotal(ph, names, tr, |tr| - 1);
    InitialTotal(ph, names, tr[0]);
  }
}
