/** When the handlers of a cancellable phase keep their order, and when a run can break it. */
module StageOrder {
  import opened Graphs
  import opened Components
  import opened StageSwitching

  /** Somebody can fail before the handler of `a`, which `b` waits for, has to end. */
  ghost predicate Breakable(ph: Phase, names: set<Name>, a: Name, b: Name, c: Name) {
    Edge(ph.waits, b, a) && c in names && !Reaches(ph.waits, c, a)
  }

  // ---- no such failure: every run is ordered -----------------------------

  ghost predicate Unbreakable(ph: Phase, names: set<Name>) {
    forall a, b, c :: !Breakable(ph, names, a, b, c)
  }

  ghost predicate TargetsEnded(ph: Phase, log: seq<Event>) {
    forall a, b :: Edge(ph.waits, b, a) ==> Ended(a) in log
  }

  /** By the time anybody has failed, every handler that is waited for has ended. */
  ghost predicate OrderInv(ph: Phase, s: State) {
    Ordered(ph, s.log) && (Disturbed(s) ==> TargetsEnded(ph, s.log))
  }

  lemma WaitedHaveEnded(ph: Phase, names: set<Name>, s: State, c: Name)
    requires Inv(ph, names, s) && !Disturbed(s) && c in names && !(s.pc[c].Waiting? && s.pc[c].todo != [])
    ensures forall d :: Edge(ph.waits, c, d) ==> d in names && s.pc[d].Done? && Ended(d) in s.log
  {
    assert TaskOk(ph, names, s, c);
    forall d | Edge(ph.waits, c, d) ensures d in names && s.pc[d].Done? && Ended(d) in s.log {
      assert TaskOk(ph, names, s, d);
    }
  }

  /** In an undisturbed phase everything that a running handler reaches has ended. */
  lemma ReachedHaveEnded(ph: Phase, names: set<Name>, s: State, c: Name, a: Name)
    requires Inv(ph, names, s) && !Disturbed(s) && c in names && s.pc[c].Handling? && Reaches(ph.waits, c, a)
    ensures a == c || Ended(a) in s.log
  {
    hide Inv, Disturbed, Reaches;
    assert s.pc.Keys == names && ph.waits.Keys == names by { InvTyped(ph, names, s); }
    var finished := set x | x in names && (x == c || s.pc[x].Done?);
    forall x | x in finished && x in ph.waits ensures ph.waits[x] <= finished {
      WaitedHaveEnded(ph, names, s, x);
      forall d | d in ph.waits[x] ensures d in finished { assert Edge(ph.waits, x, d); }
    }
    ClosedKeepsReach(ph.waits, finished, c, a);
    DoneHasEnded(ph, names, s, a);
  }

  lemma InvTyped(ph: Phase, names: set<Name>, s: State)
    requires Inv(ph, names, s)
    ensures Typed(ph, names, s)
  {
  }

  lemma DoneHasEnded(ph: Phase, names: set<Name>, s: State, a: Name)
    requires Inv(ph, names, s) && a in names
    ensures a in s.pc && (s.pc[a].Done? ==> Ended(a) in s.log)
  {
    assert TaskOk(ph, names, s, a);
  }

  lemma EndKeepsOrder(ph: Phase, names: set<Name>, s: State, c: Name, threw: bool)
    requires Unbreakable(ph, names) && Inv(ph, names, s) && OrderInv(ph, s) && c in names && s.pc[c].Handling?
    ensures OrderInv(ph, EndStep(ph, s, c, threw))
  {
    hide Inv, Reaches, Disturbed;
    EndedInOrder(ph, s.log, c);
    var log := s.log + [Ended(c)];
    forall a, b | Edge(ph.waits, b, a) ensures Ended(a) in log {
      assert !Breakable(ph, names, a, b, c);
      if !Disturbed(s) { ReachedHaveEnded(ph, names, s, c, a); }
    }
  }

  lemma BeginKeepsOrder(ph: Phase, names: set<Name>, s: State, c: Name)
    requires Inv(ph, names, s) && OrderInv(ph, s) && c in names && s.pc[c] == Waiting([])
    ensures OrderInv(ph, BeginStep(ph, s, c))
  {
    hide Inv, Ordered;
    InvTyped(ph, names, s);
    var s' := BeginStep(ph, s, c);
    if !Disturbed(s) { WaitedHaveEnded(ph, names, s, c); }
    BeganInOrder(ph, s.log, c);
    assert forall x :: Failing(s', x) ==> Failing(s, x);
  }

  /** Steps that log nothing disturb only what was disturbed. */
  lemma QuietKeepsOrder(ph: Phase, names: set<Name>, s: State, c: Name, s': State)
    requires Inv(ph, names, s) && OrderInv(ph, s) && Step(ph, names, s, c, s')
    requires !s.pc[c].Handling? && s.pc[c] != Waiting([])
    ensures OrderInv(ph, s')
  {
    hide Ordered, TargetsEnded, BeginStep, EndStep;
    assert TaskOk(ph, names, s, c);
    assert s'.log == s.log && (s'.aborted ==> s.aborted || s.pc[c].Raising?);
    assert s.pc[c].Raising? ==> Failing(s, c);
    assert forall x :: x != c && Failing(s', x) ==> Failing(s, x);
    assert Failing(s', c) ==> Failing(s, c);
  }

  lemma NextKeepsOrder(ph: Phase, names: set<Name>, s: State, s': State)
    requires Unbreakable(ph, names) && Inv(ph, names, s) && OrderInv(ph, s) && Next(ph, names, s, s')
    ensures OrderInv(ph, s')
  {
    hide Inv, OrderInv, Unbreakable, BeginStep, EndStep;
    var c :| Step(ph, names, s, c, s');
    if s.pc[c].Handling? {
      EndKeepsOrder(ph, names, s, c, false);
      EndKeepsOrder(ph, names, s, c, true);
    } else if s.pc[c] == Waiting([]) {
      BeginKeepsOrder(ph, names, s, c);
    } else {
      QuietKeepsOrder(ph, names, s, c, s');
    }
  }

  lemma {:induction false} RunKeepsOrder(ph: Phase, names: set<Name>, tr: seq<State>, k: nat)
    requires Unbreakable(ph, names) && Run(ph, names, tr) && k < |tr|
    ensures OrderInv(ph, tr[k])
  {
    hide Unbreakable, Next, Inv;
    if k > 0 {
      RunKeepsOrder(ph, names, tr, k - 1);
      RunInv(ph, names, tr, k - 1);
      assert Next(ph, names, tr[k - 1], tr[k]);
      NextKeepsOrder(ph, names, tr[k - 1], tr[k]);
    } else {
      assert forall x :: !Failing(tr[0], x);
    }
  }

  // ---- before the alarm ---------------------------------------------------

  /** What `c` waits for and has gone past. */
  ghost predicate Passed(ph: Phase, s: State, c: Name, d: Name) {
    c in s.pc && Edge(ph.waits, c, d) && !(s.pc[c].Waiting? && d in s.pc[c].todo)
  }

  /** While the alarm is not raised, a wait has been for a handler that ended, failed or not. */
  ghost predicate CalmInv(ph: Phase, s: State) {
    !s.aborted ==> Ordered(ph, s.log) && forall c, d :: Passed(ph, s, c, d) ==> Ended(d) in s.log
  }

  lemma PassedHasEnded(ph: Phase, names: set<Name>, s: State, d: Name)
    requires Inv(ph, names, s) && !s.aborted && d in names && Passes(ph, s, d)
    ensures Ended(d) in s.log
  {
    assert TaskOk(ph, names, s, d);
  }

  lemma StepStaysCalm(ph: Phase, names: set<Name>, s: State, c: Name, s': State)
    requires Inv(ph, names, s) && CalmInv(ph, s) && Step(ph, names, s, c, s')
    ensures CalmInv(ph, s')
  {
    hide Inv, Ordered, Passes;
    InvTyped(ph, names, s);
    if !s'.aborted {
      assert !s.aborted && (s'.log == s.log || s'.log == s.log + [Began(c)] || s'.log == s.log + [Ended(c)]);
      if s.pc[c] == Waiting([]) {
        assert forall d :: Edge(ph.waits, c, d) ==> Passed(ph, s, c, d);
        BeganInOrder(ph, s.log, c);
      }
      EndedInOrder(ph, s.log, c);
      forall x, d | Passed(ph, s', x, d) ensures Ended(d) in s'.log {
        if !Passed(ph, s, x, d) {
          assert x == c && d == s.pc[c].todo[0];
          PassedHasEnded(ph, names, s, d);
        }
      }
    }
  }

  lemma NextStaysCalm(ph: Phase, names: set<Name>, s: State, s': State)
    requires Inv(ph, names, s) && CalmInv(ph, s) && Next(ph, names, s, s')
    ensures CalmInv(ph, s')
  {
    hide Step, Inv, CalmInv;
    var c :| Step(ph, names, s, c, s');
    StepStaysCalm(ph, names, s, c, s');
  }

  // ---- one: a run that breaks the order ----------------------------------

  /** The last state of a run. */
  function Last(tr: seq<State>): State
    requires tr != []
  {
    tr[|tr| - 1]
  }

  /** Only the tasks in `who` have moved, and only their components have changed. */
  ghost predicate Elsewhere(names: set<Name>, s: State, s': State, who: set<Name>) {
    && s.pc.Keys == s'.pc.Keys == s.info.Keys == s'.info.Keys == names && s'.aborted == s.aborted
    && forall x :: x in names - who ==> s'.pc[x] == s.pc[x] && s'.info[x] == s.info[x]
  }

  lemma RunIsTyped(ph: Phase, names: set<Name>, tr: seq<State>)
    requires Run(ph, names, tr)
    ensures tr != [] && Typed(ph, names, Last(tr)) && Inv(ph, names, Last(tr))
  {
    hide Inv;
    RunInv(ph, names, tr, |tr| - 1);
  }

  lemma Extend(ph: Phase, names: set<Name>, tr: seq<State>, c: Name, s': State) returns (tr': seq<State>)
    requires Run(ph, names, tr) && Step(ph, names, Last(tr), c, s') && Typed(ph, names, s')
    ensures Run(ph, names, tr') && tr'[0] == tr[0] && Last(tr') == s'
  {
    hide Step, Init, Typed;
    tr' := tr + [s'];
    assert Next(ph, names, tr[|tr| - 1], s');
  }

  /** A task goes past everything it waits for, once all of that lets it pass. */
  lemma {:induction false} PassAll(ph: Phase, names: set<Name>, before: seq<State>, x: Name) returns (tr: seq<State>)
    requires Run(ph, names, before) && x in names && Last(before).pc[x].Waiting?
    requires forall d :: d in Last(before).pc[x].todo ==> d in names && Passes(ph, Last(before), d)
    ensures Run(ph, names, tr) && tr[0] == before[0] && Last(tr).pc == Last(before).pc[x := Waiting([])]
    ensures Last(tr).info == Last(before).info && Last(tr).aborted == Last(before).aborted
    decreases |Last(before).pc[x].todo|
  {
    hide Run, Inv;
    RunIsTyped(ph, names, before);
    var s := Last(before);
    var todo := s.pc[x].todo;
    if todo == [] {
      tr := before;
      assert s.pc == s.pc[x := Waiting([])];
    } else {
      var s' := Goto(s, x, Waiting(todo[1..]));
      tr := Extend(ph, names, before, x, s');
      assert forall d :: d in todo[1..] ==> d in todo && Passes(ph, s', d) == Passes(ph, s, d);
      tr := PassAll(ph, names, tr, x);
      assert s'.pc[x := Waiting([])] == s.pc[x := Waiting([])];
    }
  }

  lemma BeginOne(ph: Phase, names: set<Name>, before: seq<State>, x: Name) returns (tr: seq<State>)
    requires Run(ph, names, before) && x in names && Last(before).pc[x] == Waiting([])
    ensures Run(ph, names, tr) && tr[0] == before[0] && Elsewhere(names, Last(before), Last(tr), {x})
    ensures Last(tr).pc[x] == Handling
    ensures Last(before).info[x].life.Alive? ==> !Last(tr).info[x].life.Unborn?
  {
    hide Run, Inv;
    RunIsTyped(ph, names, before);
    tr := Extend(ph, names, before, x, BeginStep(ph, Last(before), x));
  }

  lemma EndOne(ph: Phase, names: set<Name>, before: seq<State>, x: Name, threw: bool) returns (tr: seq<State>)
    requires Run(ph, names, before) && x in names && Last(before).pc[x] == Handling && ph.cancellable
    requires threw ==> !Last(before).info[x].life.Unborn?
    ensures Run(ph, names, tr) && tr[0] == before[0] && Elsewhere(names, Last(before), Last(tr), {x})
    ensures Last(tr).pc[x] == if threw then Flunked else Settling(false)
  {
    hide Run, Inv;
    RunIsTyped(ph, names, before);
    tr := Extend(ph, names, before, x, EndStep(ph, Last(before), x, threw));
  }

  lemma SettleOne(ph: Phase, names: set<Name>, before: seq<State>, x: Name) returns (tr: seq<State>)
    requires Run(ph, names, before) && x in names && Last(before).pc[x] == Settling(false)
    ensures Run(ph, names, tr) && tr[0] == before[0] && Elsewhere(names, Last(before), Last(tr), {x})
    ensures Last(tr).pc[x] == Done(false) && Last(tr).info[x].stage == ph.next
  {
    hide Run, Inv;
    RunIsTyped(ph, names, before);
    var s := Last(before);
    tr := Extend(ph, names, before, x, Goto(Touch(s, x, s.info[x].WithStage(ph.next)), x, Done(false)));
  }

  /** A task that is free to begin runs its handler and settles. */
  lemma FinishOne(ph: Phase, names: set<Name>, before: seq<State>, x: Name) returns (tr: seq<State>)
    requires Run(ph, names, before) && x in names && ph.cancellable && Last(before).pc[x].Waiting?
    requires forall d :: d in Last(before).pc[x].todo ==> d in names && Passes(ph, Last(before), d)
    ensures Run(ph, names, tr) && tr[0] == before[0] && Elsewhere(names, Last(before), Last(tr), {x})
    ensures Last(tr).pc[x] == Done(false) && Last(tr).info[x].stage == ph.next
  {
    hide Run, Passes;
    RunIsTyped(ph, names, before);
    var t1 := PassAll(ph, names, before, x);
    RunIsTyped(ph, names, t1);
    var t2 := BeginOne(ph, names, t1, x);
    var t3 := EndOne(ph, names, t2, x, false);
    tr := SettleOne(ph, names, t3, x);
  }

  /** A set that waits for nothing outside it can be finished while everything else stands still. */
  lemma {:induction false} FinishSet(ph: Phase, names: set<Name>, before: seq<State>, group: set<Name>, left: set<Name>)
    returns (tr: seq<State>)
    requires Run(ph, names, before) && Acyclic(ph.waits) && ph.cancellable && left <= group <= names
    requires forall x :: x in group && x in ph.waits ==> ph.waits[x] <= group
    requires forall x :: x in left ==> Last(before).pc[x].Waiting?
    requires forall x :: x in group - left ==> Last(before).info[x].stage == ph.next
    ensures Run(ph, names, tr) && tr[0] == before[0] && Elsewhere(names, Last(before), Last(tr), group)
    ensures forall x :: x in group ==> Last(tr).info[x].stage == ph.next
    decreases left
  {
    hide Run, Inv, Acyclic;
    RunIsTyped(ph, names, before);
    if left == {} {
      tr := before;
    } else {
      var x := HasSink(ph.waits, left);
      var s := Last(before);
      forall d | d in s.pc[x].todo ensures d in names && Passes(ph, s, d) {
        TodoIsWaitedFor(ph, names, s, x, d);
        assert !Edge(ph.waits, x, d) || d !in left;
      }
      var mid := FinishOne(ph, names, before, x);
      tr := FinishSet(ph, names, mid, group, left - {x});
    }
  }

  lemma TodoIsWaitedFor(ph: Phase, names: set<Name>, s: State, x: Name, d: Name)
    requires Inv(ph, names, s) && x in names && s.pc[x].Waiting? && d in s.pc[x].todo
    ensures Edge(ph.waits, x, d) && d in names
  {
    assert TaskOk(ph, names, s, x);
  }

  /** The cancel flags in `flagged` are up. */
  ghost predicate AllFlagged(s: State, flagged: set<Name>) {
    forall x :: x in flagged ==> x in s.info && s.info[x].cancelled
  }

  lemma {:induction false} SpreadAll(ph: Phase, names: set<Name>, before: seq<State>, c: Name, left: set<Name>)
    returns (tr: seq<State>)
    requires Run(ph, names, before) && c in names && left <= names && Last(before).pc[c] == Spreading(left)
    requires AllFlagged(Last(before), names - left)
    ensures Run(ph, names, tr) && tr[0] == before[0] && AllFlagged(Last(tr), names)
    ensures Last(tr).pc.Keys == names && forall x :: x in names && x != c ==> Last(tr).pc[x] == Last(before).pc[x]
    decreases left
  {
    hide Run, Inv, Step, AllFlagged;
    RunIsTyped(ph, names, before);
    if left == {} {
      tr := before;
      assert names - left == names;
    } else {
      var d :| d in left;
      var mid := SpreadOne(ph, names, before, c, left, d);
      tr := SpreadAll(ph, names, mid, c, left - {d});
    }
  }

  lemma SpreadOne(ph: Phase, names: set<Name>, before: seq<State>, c: Name, left: set<Name>, d: Name)
    returns (tr: seq<State>)
    requires Run(ph, names, before) && c in names && d in left && left <= names && Last(before).pc[c] == Spreading(left)
    requires AllFlagged(Last(before), names - left)
    ensures Run(ph, names, tr) && tr[0] == before[0] && Last(tr).pc == Last(before).pc[c := Spreading(left - {d})]
    ensures AllFlagged(Last(tr), names - (left - {d}))
  {
    hide Run, Inv;
    RunIsTyped(ph, names, before);
    var s := Last(before);
    var s' := Goto(Touch(s, d, s.info[d].WithCancelled(true)), c, Spreading(left - {d}));
    assert Step(ph, names, s, c, s');
    tr := Extend(ph, names, before, c, s');
    forall x | x in names - (left - {d}) ensures x in s'.info && s'.info[x].cancelled {
      assert x == d || x in names - left;
    }
  }

  /** The first failure raises the alarm and flags everybody. */
  lemma FailAndFlag(ph: Phase, names: set<Name>, before: seq<State>, c: Name) returns (tr: seq<State>)
    requires Run(ph, names, before) && c in names && ph.cancellable
    requires Last(before).pc[c] == Waiting([]) && Last(before).info[c].life.Alive? && !Last(before).aborted
    ensures Run(ph, names, tr) && tr[0] == before[0] && AllFlagged(Last(tr), names)
    ensures Last(tr).pc.Keys == names && forall x :: x in names && x != c ==> Last(tr).pc[x] == Last(before).pc[x]
  {
    hide Run, Inv;
    var t1 := BeginOne(ph, names, before, c);
    var t2 := EndOne(ph, names, t1, c, true);
    tr := RaiseAlarm(ph, names, t2, c);
    tr := SpreadAll(ph, names, tr, c, names);
  }

  lemma RaiseAlarm(ph: Phase, names: set<Name>, before: seq<State>, c: Name) returns (tr: seq<State>)
    requires Run(ph, names, before) && c in names && Last(before).pc[c] == Flunked && !Last(before).aborted
    ensures Run(ph, names, tr) && tr[0] == before[0] && Last(tr).pc == Last(before).pc[c := Spreading(names)]
  {
    hide Run, Inv;
    RunIsTyped(ph, names, before);
    var s := Last(before);
    var s1 := Goto(Touch(s, c, s.info[c].WithCancelled(true)), c, Raising);
    tr := Extend(ph, names, before, c, s1);
    tr := Extend(ph, names, tr, c, Goto(s1, c, Spreading(names)).(aborted := true));
    assert s1.pc[c := Spreading(names)] == s.pc[c := Spreading(names)];
  }

  /** Where a phase starts once everything is constructed. */
  ghost predicate Constructed(ph: Phase, names: set<Name>, s: State) {
    Init(ph, names, s) && forall x :: x in names ==> s.info[x].life.Alive?
  }

  lemma StartRun(ph: Phase, names: set<Name>, s: State)
    requires Constructed(ph, names, s)
    ensures Run(ph, names, [s]) && Typed(ph, names, s) && !s.aborted
    ensures forall x :: x in names ==> s.pc[x].Waiting? && s.info[x].life.Alive?
  {
  }

  /** Everything that `c` waits for, directly or not. */
  ghost function Below(ph: Phase, names: set<Name>, c: Name): set<Name> {
    set d | d in names && DependsOn(ph.waits, c, d)
  }

  lemma BelowIsClosed(ph: Phase, names: set<Name>, c: Name)
    requires OverNodes(ph.waits, names) && c in names
    ensures forall x :: x in Below(ph, names, c) && x in ph.waits ==> ph.waits[x] <= Below(ph, names, c)
    ensures ph.waits[c] <= Below(ph, names, c)
  {
    hide DependsOn;
    forall d | d in ph.waits[c] ensures d in Below(ph, names, c) {
      ReachesSplit(ph.waits, d, d);
      EdgeThenReaches(ph.waits, c, d, d);
    }
    forall x, d | x in Below(ph, names, c) && x in ph.waits && d in ph.waits[x] ensures d in Below(ph, names, c) {
      DependsThenEdge(ph.waits, c, x, d);
    }
  }

  lemma DependsThenEdge(g: Graph, a: Name, b: Name, c: Name)
    requires DependsOn(g, a, b) && Edge(g, b, c)
    ensures DependsOn(g, a, c)
  {
    var p :| |p| >= 2 && PathBetween(g, p, a, b);
    EdgePath(g, b, c);
    PathJoin(g, p, [b, c]);
    assert |p + [b, c][1..]| >= 2;
  }

  /** What `c` waits for is finished, everything else still waits, and `c` is free to begin. */
  lemma ReadyToFail(ph: Phase, names: set<Name>, s: State, c: Name) returns (tr: seq<State>)
    requires ph.cancellable && Constructed(ph, names, s) && Acyclic(ph.waits) && c in names
    requires c !in Below(ph, names, c)
    ensures Run(ph, names, tr) && tr[0] == s
    ensures Last(tr).pc.Keys == Last(tr).info.Keys == names && !Last(tr).aborted
    ensures Last(tr).pc[c] == Waiting([]) && Last(tr).info[c].life.Alive?
    ensures forall x :: x in names - Below(ph, names, c) ==> Last(tr).pc[x].Waiting?
  {
    hide Run, Inv, Below, Acyclic, Constructed;
    StartRun(ph, names, s);
    BelowIsClosed(ph, names, c);
    var group := Below(ph, names, c);
    assert group <= names by { BelowIsInside(ph, names, c); }
    var mid := FinishSet(ph, names, [s], group, group);
    RunIsTyped(ph, names, mid);
    forall d | d in Last(mid).pc[c].todo ensures d in names && Passes(ph, Last(mid), d) {
      TodoIsWaitedFor(ph, names, Last(mid), c, d);
    }
    tr := PassAll(ph, names, mid, c);
  }

  lemma BelowIsInside(ph: Phase, names: set<Name>, c: Name)
    ensures Below(ph, names, c) <= names
  {
  }

  /** From every start with all components constructed: `c` fails as soon as it can, everybody is
      flagged, and `b` begins although `a` never did. */
  lemma BreakingRun(ph: Phase, names: set<Name>, s: State, a: Name, b: Name, c: Name) returns (tr: seq<State>)
    requires ph.cancellable && Constructed(ph, names, s) && Acyclic(ph.waits) && Breakable(ph, names, a, b, c)
    ensures Run(ph, names, tr) && tr[0] == s
    ensures Began(b) in Last(tr).log && Began(a) !in Last(tr).log && Ended(a) !in Last(tr).log
  {
    hide Run, Inv, Below, Acyclic, OverNodes, Breakable, Constructed;
    StartRun(ph, names, s);
    Bystanders(ph, names, a, b, c);
    var t1 := ReadyToFail(ph, names, s, c);
    var t2 := FailAndFlag(ph, names, t1, c);
    RunIsTyped(ph, names, t2);
    forall d | d in Last(t2).pc[b].todo ensures d in names && Passes(ph, Last(t2), d) {
      TodoIsWaitedFor(ph, names, Last(t2), b, d);
    }
    var t3 := PassAll(ph, names, t2, b);
    tr := BeginOne(ph, names, t3, b);
    RunIsTyped(ph, names, tr);
    LoggedOrNot(ph, names, Last(tr), a, b);
  }

  /** Neither `a` nor `b` nor `c` itself is among what `c` waits for. */
  lemma Bystanders(ph: Phase, names: set<Name>, a: Name, b: Name, c: Name)
    requires OverNodes(ph.waits, names) && Acyclic(ph.waits) && Breakable(ph, names, a, b, c)
    ensures a in names && b in names && c in names && a != b && b != c && a != c
    ensures a !in Below(ph, names, c) && b !in Below(ph, names, c) && c !in Below(ph, names, c)
  {
    hide DependsOn, Reaches;
    ReachesSplit(ph.waits, c, a);
    ReachesSplit(ph.waits, a, a);
    EdgeThenReaches(ph.waits, b, a, a);
    if DependsOn(ph.waits, c, b) { DependsThenEdge(ph.waits, c, b, a); }
  }

  lemma LoggedOrNot(ph: Phase, names: set<Name>, s: State, a: Name, b: Name)
    requires Inv(ph, names, s) && a in names && b in names && s.pc[a].Waiting? && s.pc[b].Handling?
    ensures Began(b) in s.log && Began(a) !in s.log && Ended(a) !in s.log
  {
    assert TaskOk(ph, names, s, a) && TaskOk(ph, names, s, b);
  }

  lemma BegunTooEarly(ph: Phase, log: seq<Event>, a: Name, b: Name)
    requires Began(b) in log && Edge(ph.waits, b, a) && Ended(a) !in log
    ensures !Ordered(ph, log)
  {
    var i :| 0 <= i < |log| && log[i] == Began(b);
    assert Ended(a) !in log[..i];
  }

  // ---- exactly when ------------------------------------------------------

  /** A run from `s` that breaks the order. */
  ghost predicate Breaks(ph: Phase, names: set<Name>, s: State, tr: seq<State>) {
    Run(ph, names, tr) && tr[0] == s && !Ordered(ph, Last(tr).log)
  }

  /**
    * From any start with all components constructed, a cancellable phase has a run that breaks the
    * order of handlers if and only if some handler is waited for and some component does not wait for
    * it, directly or not: a condition on the graph alone.
    */
  lemma OrderBreaksIff(ph: Phase, names: set<Name>, s: State)
    requires ph.cancellable && Constructed(ph, names, s) && Acyclic(ph.waits)
    ensures (exists tr :: Breaks(ph, names, s, tr)) <==> exists a, b, c :: Breakable(ph, names, a, b, c)
  {
    hide Run, Ordered, Acyclic, Breakable, Constructed;
    if a, b, c :| Breakable(ph, names, a, b, c) {
      var tr := BreakingRun(ph, names, s, a, b, c);
      BreakableEdge(ph, names, a, b, c);
      RunIsTyped(ph, names, tr);
      BegunTooEarly(ph, Last(tr).log, a, b);
      assert Breaks(ph, names, s, tr);
    }
    if tr :| Breaks(ph, names, s, tr) {
      if Unbreakable(ph, names) {
        RunIsTyped(ph, names, tr);
        RunKeepsOrder(ph, names, tr, |tr| - 1);
      }
    }
  }

  lemma BreakableEdge(ph: Phase, names: set<Name>, a: Name, b: Name, c: Name)
    requires Breakable(ph, names, a, b, c)
    ensures Edge(ph.waits, b, a)
  {
  }

  /** Three components: `b` depends on `a`, and `c` on nothing. */
  ghost predicate Trio(ph: Phase, names: set<Name>, a: Name, b: Name, c: Name) {
    && a != b && b != c && c != a && names == {a, b, c}
    && ph == Phase(Running, map[a := {}, b := {a}, c := {}], true, false)
  }

  /** A raised flag ends a wait without an exception: the smallest phase in which `b` begins although
      the handler of its dependency never did. */
  lemma CancelledWaiterRunsEarly(ph: Phase, names: set<Name>, s: State, a: Name, b: Name, c: Name)
    returns (tr: seq<State>)
    requires Trio(ph, names, a, b, c) && Constructed(ph, names, s)
    ensures ph.cancellable && Acyclic(ph.waits) && Edge(ph.waits, b, a)
    ensures Run(ph, names, tr) && tr[0] == s && Began(b) in Last(tr).log && Began(a) !in Last(tr).log
  {
    hide Run;
    SingleEdgeAcyclic(ph.waits, b, a);
    if Reaches(ph.waits, c, a) {
      ReachesSplit(ph.waits, c, a);
      var p :| |p| >= 2 && PathBetween(ph.waits, p, c, a);
      SingleEdgePath(ph.waits, b, a, p);
    }
    tr := BreakingRun(ph, names, s, a, b, c);
  }

  lemma SingleEdgePath(g: Graph, x: Name, y: Name, p: seq<Name>)
    requires |p| >= 2 && Path(g, p) && forall a, b :: Edge(g, a, b) ==> a == x && b == y
    ensures p[0] == x && p[|p| - 1] == y
  {
    assert Edge(g, p[0], p[0 + 1]);
    assert Edge(g, p[|p| - 2], p[|p| - 2 + 1]);
  }

  lemma SingleEdgeAcyclic(g: Graph, x: Name, y: Name)
    requires x != y && forall a, b :: Edge(g, a, b) ==> a == x && b == y
    ensures Acyclic(g)
  {
    forall z ensures !DependsOn(g, z, z) {
      if DependsOn(g, z, z) {
        var p :| |p| >= 2 && PathBetween(g, p, z, z);
        SingleEdgePath(g, x, y, p);
      }
    }
  }
}
