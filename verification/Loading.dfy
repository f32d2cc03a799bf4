/** Concurrent loading: one boot task per component runs a constructor that may look up
    other components, wait for them, fail, or publish; failing tasks and outside callers
    run `CancelComponentsLoad`. Steps are taken at the granularity of one lock section or
    one atomic operation, in every possible interleaving. */
module Loading {
  import opened Graphs
  import opened Components

  datatype Actor = Boot(name: Name) | Canceller(id: nat)

  datatype Pc =
    | Constructing                                   // user constructor code is running
    | Looking(dep: Name)                             // edge recorded, about to read the dependency's slot
    | Waiting(dep: Name)                             // inside WaitAndGetComponent
    | SelfCheck                                      // published with the cancel flag set
    | SelfClaim                                      // HasComponent passed, exchange pending
    | Flagging(todo: set<Name>)                      // CancelComponentLifetimeStageSwitching
    | Deciding                                       // test_and_set of components_load_cancelled_
    | Notifying(left: set<Name>)                     // calling OnLoadingCancelled on everyone
    | NotifyClaim(target: Name, remaining: set<Name>)
    | Done(ok: bool)

  datatype State = State(deps: Graph, info: Infos, pc: map<Actor, Pc>, loadCancelled: bool)

  ghost predicate Names(s: State, names: set<Name>) {
    s.info.Keys == names && OverNodes(s.deps, names) && forall c :: c in names ==> Boot(c) in s.pc
  }

  ghost predicate Init(names: set<Name>, s: State) {
    && s.deps == (map c | c in names :: {})
    && s.info == (map c | c in names :: FRESH)
    && (forall c :: c in names <==> Boot(c) in s.pc)
    && (forall a :: a in s.pc ==> s.pc[a] == if a.Boot? then Constructing else Flagging(names))
    && !s.loadCancelled
  }

  // ---- steps -------------------------------------------------------------

  function Goto(s: State, a: Actor, pc: Pc): State { s.(pc := s.pc[a := pc]) }

  function Touch(s: State, c: Name, i: Info): State { s.(info := s.info[c := i]) }

  /** What the user's constructor of `c` can do next. */
  ghost predicate ConstructorStep(names: set<Name>, s: State, a: Actor, s': State)
    requires Names(s, names) && a.Boot? && a.name in names
  {
    var c := a.name;
    || (exists d :: d in names && Acyclic(AddEdge(s.deps, c, d)) && s' == FindStep(s, a, d))
    || s' == PublishStep(s, a)
    || s' == Goto(s, a, Flagging(names))
  }

  function FindStep(s: State, a: Actor, d: Name): State
    requires a.Boot? && a.name in s.deps
  {
    Goto(s.(deps := AddEdge(s.deps, a.name, d)), a, Looking(d))
  }

  function PublishStep(s: State, a: Actor): State
    requires a.Boot? && a.name in s.info
  {
    var i := s.info[a.name];
    Goto(Touch(s, a.name, i.Published()), a, if i.cancelled then SelfCheck else Done(true))
  }

  ghost predicate CancelStep(names: set<Name>, s: State, a: Actor, s': State)
    requires Names(s, names) && a in s.pc
  {
    match s.pc[a]
    case Flagging(todo) =>
      if todo == {} then s' == Goto(s, a, Deciding)
      else exists c :: c in todo && c in names &&
                       s' == Goto(Touch(s, c, s.info[c].WithCancelled(true)), a, Flagging(todo - {c}))
    case Deciding =>
      s' == if s.loadCancelled then Goto(s, a, Done(false)) else Goto(s, a, Notifying(names)).(loadCancelled := true)
    case Notifying(left) =>
      if left == {} then s' == Goto(s, a, Done(false))
      else exists c :: c in left && c in names &&
                       s' == Goto(s, a, if s.info[c].HasComponent() then NotifyClaim(c, left - {c})
                                        else Notifying(left - {c}))
    case NotifyClaim(c, left) =>
      c in names && s' == Goto(Touch(s, c, s.info[c].Claimed()), a, Notifying(left))
    case _ => false
  }

  ghost predicate Step(names: set<Name>, s: State, a: Actor, s': State)
    requires Names(s, names)
  {
    && a in s.pc
    && (a.Boot? ==> a.name in names)
    && match s.pc[a]
       case Constructing => a.Boot? && ConstructorStep(names, s, a, s')
       case Looking(d) =>
         d in names && s' == Goto(s, a, if s.info[d].HasComponent() then Constructing else Waiting(d))
       case Waiting(d) => d in names && !Blocked(s, a) && s' == Goto(s, a, Constructing)
       case SelfCheck => s' == Goto(s, a, SelfClaim)
       case SelfClaim =>
         a.Boot? && s' == Goto(Touch(s, a.name, s.info[a.name].Claimed()), a, Done(true))
       case Done(_) => false
       case _ => CancelStep(names, s, a, s')
  }

  /** The predicate of the condition-variable wait is still false. */
  ghost predicate Blocked(s: State, a: Actor) {
    && a in s.pc && s.pc[a].Waiting? && s.pc[a].dep in s.info
    && !s.info[s.pc[a].dep].HasComponent() && !s.info[s.pc[a].dep].cancelled
  }

  ghost predicate Next(names: set<Name>, s: State, s': State) {
    Names(s, names) && exists a :: Step(names, s, a, s')
  }

  /** A finite run: consecutive states are related by one step of one task. */
  ghost predicate Run(names: set<Name>, tr: seq<State>) {
    && |tr| > 0 && Init(names, tr[0])
    && (forall i :: 0 <= i < |tr| ==> Names(tr[i], names))
    && (forall i, j :: 0 <= i < j < |tr| && j == i + 1 ==> Next(names, tr[i], tr[j]))
  }

  ghost predicate AllDone(s: State) { forall a :: a in s.pc ==> s.pc[a].Done? }

  // ---- invariant ---------------------------------------------------------

  ghost predicate Published(pc: Pc) { pc.SelfCheck? || pc.SelfClaim? || pc == Done(true) }

  /** Actor `a` still has to deliver (or skip) the callback of `c`. */
  ghost predicate Owes(s: State, a: Actor, c: Name) {
    a in s.pc && match s.pc[a]
                 case SelfCheck => a == Boot(c)
                 case SelfClaim => a == Boot(c)
                 case Notifying(left) => c in left
                 case NotifyClaim(t, left) => t == c || c in left
                 case _ => false
  }

  ghost predicate MidFlagging(s: State, a: Actor) {
    a in s.pc && (s.pc[a].Flagging? || s.pc[a].Deciding?)
  }

  ghost predicate PcOk(names: set<Name>, s: State, a: Actor)
    requires Names(s, names) && a in s.pc
  {
    match s.pc[a]
    case Constructing => a.Boot?
    case Looking(d) => a.Boot? && Edge(s.deps, a.name, d)
    case Waiting(d) => a.Boot? && Edge(s.deps, a.name, d)
    case SelfCheck => a.Boot? && a.name in names && s.info[a.name].cancelled
    case SelfClaim => a.Boot? && a.name in names && s.info[a.name].cancelled
    case Flagging(todo) => todo <= names && forall c :: c in names - todo ==> s.info[c].cancelled
    case Deciding => forall c :: c in names ==> s.info[c].cancelled
    case Notifying(left) => s.loadCancelled && left <= names
    case NotifyClaim(t, left) => s.loadCancelled && t in names && left <= names && s.info[t].HasComponent()
    case Done(ok) => if ok then a.Boot? else s.loadCancelled
  }

  ghost predicate InfoOk(names: set<Name>, s: State, c: Name)
    requires Names(s, names) && c in names
  {
    var i := s.info[c];
    && i.life == (if Published(s.pc[Boot(c)]) then Alive else Unborn)
    && i.stage == (if i.life.Alive? then Created else Null)
    && i.notified == (if i.cancelClaimed then 1 else 0)
    && (i.cancelClaimed ==> i.cancelled && i.life.Alive?)
    && (i.cancelled ==> s.loadCancelled || exists a :: MidFlagging(s, a))
    && (s.loadCancelled ==> i.cancelled)
    && (s.loadCancelled && i.life.Alive? && !i.cancelClaimed ==> exists a :: Owes(s, a, c))
  }

  ghost predicate Inv(names: set<Name>, s: State) {
    && Names(s, names)
    && Acyclic(s.deps)
    && (forall a :: a in s.pc && a.Boot? ==> a.name in names)
    && (forall a {:trigger PcOk(names, s, a)} :: a in s.pc ==> PcOk(names, s, a))
    && (forall c {:trigger InfoOk(names, s, c)} :: c in names ==> InfoOk(names, s, c))
  }

  lemma InitInv(names: set<Name>, s: State)
    requires Init(names, s)
    ensures Inv(names, s)
  {
    NoEdgesAcyclic(s.deps);
  }

  // ---- every step keeps the invariant ------------------------------------

  ghost predicate Grows(names: set<Name>, s: State, s': State)
    requires Names(s, names) && Names(s', names)
  {
    && (forall c, d :: Edge(s.deps, c, d) ==> Edge(s'.deps, c, d))
    && (forall c :: c in names && s.info[c].cancelled ==> s'.info[c].cancelled)
    && (forall c :: c in names && s.info[c].life.Alive? ==> s'.info[c].life.Alive?)
    && (s.loadCancelled ==> s'.loadCancelled)
  }

  lemma OtherPcOk(names: set<Name>, s: State, s': State, b: Actor)
    requires Names(s, names) && Names(s', names) && Grows(names, s, s')
    requires b in s.pc && b in s'.pc && s'.pc[b] == s.pc[b] && PcOk(names, s, b)
    ensures PcOk(names, s', b)
  {
  }

  /** Nothing about component `x` changed, and the acting actor `a` still owes what it owed for it. */
  ghost predicate Undisturbed(names: set<Name>, s: State, a: Actor, s': State, x: Name)
    requires Names(s, names) && Names(s', names) && x in names
  {
    && s'.info[x] == s.info[x]
    && Published(s'.pc[Boot(x)]) == Published(s.pc[Boot(x)])
    && (Owes(s, a, x) && s.info[x].life.Alive? ==> Owes(s', a, x))
  }

  ghost predicate UndisturbedBut(names: set<Name>, s: State, a: Actor, s': State, touched: set<Name>)
    requires Names(s, names) && Names(s', names)
  {
    forall x {:trigger Undisturbed(names, s, a, s', x)} :: x in names - touched ==> Undisturbed(names, s, a, s', x)
  }

  ghost predicate OnlyActor(s: State, a: Actor, s': State) {
    && s'.pc.Keys == s.pc.Keys && a in s.pc
    && forall b :: b in s.pc && b != a ==> s'.pc[b] == s.pc[b]
  }

  lemma OtherInfoOk(names: set<Name>, s: State, a: Actor, s': State, x: Name)
    requires Names(s, names) && Names(s', names) && x in names && InfoOk(names, s, x)
    requires OnlyActor(s, a, s') && Undisturbed(names, s, a, s', x)
    requires s'.loadCancelled == s.loadCancelled
    requires MidFlagging(s, a) ==> MidFlagging(s', a) || s.loadCancelled
    ensures InfoOk(names, s', x)
  {
    if s.info[x].cancelled && !s.loadCancelled {
      var b :| MidFlagging(s, b);
      assert MidFlagging(s', b);
    }
    if s.loadCancelled && s.info[x].life.Alive? && !s.info[x].cancelClaimed {
      var b :| Owes(s, b, x);
      assert Owes(s', b, x);
    }
  }

  /** Frame rule for one actor's step that touches at most the components in `touched`. */
  lemma StepKeeps(names: set<Name>, s: State, a: Actor, s': State, touched: set<Name>)
    requires Inv(names, s) && Names(s', names) && Acyclic(s'.deps)
    requires OnlyActor(s, a, s') && Grows(names, s, s') && PcOk(names, s', a)
    requires s'.loadCancelled == s.loadCancelled
    requires MidFlagging(s, a) ==> MidFlagging(s', a) || s.loadCancelled
    requires forall x :: x in touched && x in names ==> InfoOk(names, s', x)
    requires UndisturbedBut(names, s, a, s', touched)
    ensures Inv(names, s')
  {
    forall b | b in s'.pc ensures PcOk(names, s', b) {
      if b != a { OtherPcOk(names, s, s', b); }
    }
    forall x | x in names ensures InfoOk(names, s', x) {
      if x !in touched { OtherInfoOk(names, s, a, s', x); }
    }
  }

  /** What a step that updates one component and moves one actor leaves alone. */
  lemma TouchFrame(names: set<Name>, s: State, a: Actor, c: Name, i: Info, pc: Pc)
    requires Names(s, names) && a in s.pc && c in names
    requires s.info[c].cancelled ==> i.cancelled
    requires s.info[c].life.Alive? ==> i.life.Alive?
    ensures var s' := Goto(Touch(s, c, i), a, pc);
            && Names(s', names) && OnlyActor(s, a, s') && Grows(names, s, s')
            && s'.info[c] == i
            && forall x :: x in names && x != c ==> s'.info[x] == s.info[x]
  {
  }

  /** Moving one actor between steps that publish nothing and owe nothing. */
  lemma MoveInv(names: set<Name>, s: State, a: Actor, pc: Pc)
    requires Inv(names, s) && a in s.pc
    requires PcOk(names, Goto(s, a, pc), a)
    requires Published(pc) == Published(s.pc[a])
    requires MidFlagging(s, a) ==> pc.Flagging? || pc.Deciding? || s.loadCancelled
    requires forall c :: c in names && Owes(s, a, c) && s.info[c].life.Alive? ==> Owes(Goto(s, a, pc), a, c)
    ensures Inv(names, Goto(s, a, pc))
  {
    StepKeeps(names, s, a, Goto(s, a, pc), {});
  }

  lemma FindInv(names: set<Name>, s: State, a: Actor, d: Name)
    requires Inv(names, s) && a in s.pc && s.pc[a].Constructing? && a.Boot? && d in names
    requires Acyclic(AddEdge(s.deps, a.name, d))
    ensures Inv(names, FindStep(s, a, d))
  {
    var s' := FindStep(s, a, d);
    assert Edge(s'.deps, a.name, d);
    StepKeeps(names, s, a, s', {});
  }

  lemma PublishInv(names: set<Name>, s: State, a: Actor)
    requires Inv(names, s) && a in s.pc && s.pc[a].Constructing? && a.Boot?
    ensures Inv(names, PublishStep(s, a))
  {
    var s' := PublishStep(s, a);
    assert InfoOk(names, s, a.name);
    assert InfoOk(names, s', a.name) by {
      if b :| MidFlagging(s, b) { assert MidFlagging(s', b); }
      assert s'.pc[a].SelfCheck? ==> Owes(s', a, a.name);
    }
    StepKeeps(names, s, a, s', {a.name});
  }

  /** The exchange for `c` settles whatever was owed for it. */
  lemma ClaimedInfoOk(names: set<Name>, s: State, a: Actor, c: Name, s': State)
    requires Names(s, names) && Names(s', names) && c in names && InfoOk(names, s, c)
    requires OnlyActor(s, a, s') && !MidFlagging(s, a) && s'.loadCancelled == s.loadCancelled
    requires s'.info[c] == s.info[c].Claimed() && s.info[c].cancelled && s.info[c].life.Alive?
    requires Published(s'.pc[Boot(c)])
    ensures InfoOk(names, s', c)
  {
    if b :| MidFlagging(s, b) { assert MidFlagging(s', b); }
  }

  /** By its own boot task ... */
  lemma SelfClaimInv(names: set<Name>, s: State, c: Name)
    requires Inv(names, s) && c in names && s.pc[Boot(c)].SelfClaim?
    ensures Inv(names, Goto(Touch(s, c, s.info[c].Claimed()), Boot(c), Done(true)))
  {
    var s' := Goto(Touch(s, c, s.info[c].Claimed()), Boot(c), Done(true));
    assert PcOk(names, s, Boot(c)) && InfoOk(names, s, c);
    ClaimedInfoOk(names, s, Boot(c), c, s');
    StepKeeps(names, s, Boot(c), s', {c});
  }

  /** A canceller that touched `c` left the others alone and still owes them what it owed. */
  lemma CancellerUndisturbed(names: set<Name>, s: State, a: Actor, c: Name, s': State)
    requires Names(s, names) && Names(s', names) && a in s.pc && OnlyActor(s, a, s')
    requires forall x :: x in names && x != c ==> s'.info[x] == s.info[x]
    requires || (s.pc[a].NotifyClaim? && s.pc[a].target == c && s'.pc[a] == Notifying(s.pc[a].remaining))
             || (s.pc[a].Flagging? && s'.pc[a].Flagging?)
    ensures UndisturbedBut(names, s, a, s', {c})
  {
    forall x | x in names - {c} ensures Undisturbed(names, s, a, s', x) {}
  }

  /** ... or by the notifying canceller. */
  lemma NotifyClaimInv(names: set<Name>, s: State, a: Actor)
    requires Inv(names, s) && a in s.pc && s.pc[a].NotifyClaim? && s.pc[a].target in names
    ensures var c := s.pc[a].target;
            Inv(names, Goto(Touch(s, c, s.info[c].Claimed()), a, Notifying(s.pc[a].remaining)))
  {
    var c := s.pc[a].target;
    var s' := Goto(Touch(s, c, s.info[c].Claimed()), a, Notifying(s.pc[a].remaining));
    assert PcOk(names, s, a) && InfoOk(names, s, c);
    TouchFrame(names, s, a, c, s.info[c].Claimed(), s'.pc[a]);
    ClaimedInfoOk(names, s, a, c, s');
    CancellerUndisturbed(names, s, a, c, s');
    hide InfoOk, PcOk, Undisturbed, UndisturbedBut, Grows;
    StepKeeps(names, s, a, s', {c});
  }

  lemma FlaggedInfoOk(names: set<Name>, s: State, a: Actor, c: Name, s': State)
    requires Names(s, names) && Names(s', names) && c in names && InfoOk(names, s, c)
    requires OnlyActor(s, a, s') && MidFlagging(s, a) && MidFlagging(s', a) && s'.loadCancelled == s.loadCancelled
    requires s'.info[c] == s.info[c].WithCancelled(true)
    ensures InfoOk(names, s', c)
  {
    if b :| Owes(s, b, c) { assert Owes(s', b, c); }
  }

  lemma FlaggedPcOk(names: set<Name>, s: State, a: Actor, c: Name, s': State)
    requires Names(s, names) && Names(s', names) && c in names && a in s.pc && a in s'.pc
    requires PcOk(names, s, a) && s.pc[a].Flagging? && s'.pc[a] == Flagging(s.pc[a].todo - {c})
    requires s'.info[c].cancelled && forall x :: x in names && x != c ==> s'.info[x] == s.info[x]
    ensures PcOk(names, s', a)
  {
    assert forall x :: x in names - s'.pc[a].todo ==> x == c || x in names - s.pc[a].todo;
  }

  lemma FlagInv(names: set<Name>, s: State, a: Actor, c: Name)
    requires Inv(names, s) && a in s.pc && s.pc[a].Flagging? && c in s.pc[a].todo && c in names
    ensures Inv(names, Goto(Touch(s, c, s.info[c].WithCancelled(true)), a, Flagging(s.pc[a].todo - {c})))
  {
    assert PcOk(names, s, a) && InfoOk(names, s, c);
    var s' := Goto(Touch(s, c, s.info[c].WithCancelled(true)), a, Flagging(s.pc[a].todo - {c}));
    TouchFrame(names, s, a, c, s.info[c].WithCancelled(true), s'.pc[a]);
    FlaggedInfoOk(names, s, a, c, s');
    FlaggedPcOk(names, s, a, c, s');
    CancellerUndisturbed(names, s, a, c, s');
    hide InfoOk, PcOk, Undisturbed, UndisturbedBut, Grows;
    StepKeeps(names, s, a, s', {c});
  }

  lemma DecideInv(names: set<Name>, s: State, a: Actor)
    requires Inv(names, s) && a in s.pc && s.pc[a].Deciding? && !s.loadCancelled
    ensures Inv(names, Goto(s, a, Notifying(names)).(loadCancelled := true))
  {
    var s' := Goto(s, a, Notifying(names)).(loadCancelled := true);
    assert PcOk(names, s, a);
    forall b | b in s'.pc ensures PcOk(names, s', b) {
      if b != a { OtherPcOk(names, s, s', b); }
    }
    forall c | c in names ensures InfoOk(names, s', c) {
      assert InfoOk(names, s, c);
      assert Owes(s', a, c);
    }
  }

  lemma FlaggingInv(names: set<Name>, s: State, a: Actor, s': State)
    requires Inv(names, s) && a in s.pc && s.pc[a].Flagging? && CancelStep(names, s, a, s')
    ensures Inv(names, s')
  {
    assert PcOk(names, s, a);
    var todo := s.pc[a].todo;
    if todo == {} {
      MoveInv(names, s, a, Deciding);
    } else {
      var c :| c in todo && c in names &&
               s' == Goto(Touch(s, c, s.info[c].WithCancelled(true)), a, Flagging(todo - {c}));
      FlagInv(names, s, a, c);
    }
  }

  lemma NotifyingInv(names: set<Name>, s: State, a: Actor, s': State)
    requires Inv(names, s) && a in s.pc && s.pc[a].Notifying? && CancelStep(names, s, a, s')
    ensures Inv(names, s')
  {
    assert PcOk(names, s, a);
    var left := s.pc[a].left;
    if left == {} {
      MoveInv(names, s, a, Done(false));
    } else {
      var c :| c in left && c in names &&
               s' == Goto(s, a, if s.info[c].HasComponent() then NotifyClaim(c, left - {c}) else Notifying(left - {c}));
      MoveInv(names, s, a, s'.pc[a]);
    }
  }

  lemma ConstructingInv(names: set<Name>, s: State, a: Actor, s': State)
    requires Inv(names, s) && a in s.pc && a.Boot? && a.name in names && s.pc[a].Constructing?
    requires ConstructorStep(names, s, a, s')
    ensures Inv(names, s')
  {
    if d :| d in names && Acyclic(AddEdge(s.deps, a.name, d)) && s' == FindStep(s, a, d) {
      FindInv(names, s, a, d);
    } else if s' == PublishStep(s, a) {
      PublishInv(names, s, a);
    } else {
      MoveInv(names, s, a, Flagging(names));
    }
  }

  lemma DecidingInv(names: set<Name>, s: State, a: Actor, s': State)
    requires Inv(names, s) && a in s.pc && s.pc[a].Deciding? && CancelStep(names, s, a, s')
    ensures Inv(names, s')
  {
    if s.loadCancelled {
      MoveInv(names, s, a, Done(false));
    } else {
      DecideInv(names, s, a);
    }
  }

  lemma StepInv(names: set<Name>, s: State, a: Actor, s': State)
    requires Inv(names, s) && Step(names, s, a, s')
    ensures Inv(names, s')
  {
    assert PcOk(names, s, a);
    match s.pc[a]
    case Constructing => ConstructingInv(names, s, a, s');
    case Looking(d) => MoveInv(names, s, a, s'.pc[a]);
    case Waiting(d) => MoveInv(names, s, a, Constructing);
    case SelfCheck => MoveInv(names, s, a, SelfClaim);
    case SelfClaim => SelfClaimInv(names, s, a.name);
    case Flagging(_) => FlaggingInv(names, s, a, s');
    case Deciding => DecidingInv(names, s, a, s');
    case Notifying(_) => NotifyingInv(names, s, a, s');
    case NotifyClaim(_, _) => NotifyClaimInv(names, s, a);
  }

  lemma {:induction false} RunInv(names: set<Name>, tr: seq<State>, k: nat)
    requires Run(names, tr) && k < |tr|
    ensures Inv(names, tr[k])
  {
    if k == 0 {
      InitInv(names, tr[0]);
    } else {
      RunInv(names, tr, k - 1);
      assert Next(names, tr[k - 1], tr[k]);
      NextInv(names, tr[k - 1], tr[k]);
    }
  }

  lemma NextInv(names: set<Name>, s: State, s': State)
    requires Inv(names, s) && Next(names, s, s')
    ensures Inv(names, s')
  {
    var a :| Step(names, s, a, s');
    StepInv(names, s, a, s');
  }

  // ---- what the protocol guarantees --------------------------------------

  /** Loading never reaches a circular wait: whenever some task is unfinished, some unfinished
      task is not blocked and has a step to take. */
  lemma NeverStuck(names: set<Name>, tr: seq<State>, k: nat)
    requires Run(names, tr) && k < |tr|
    ensures AllDone(tr[k]) || exists s' :: Next(names, tr[k], s')
  {
    hide Step;
    RunInv(names, tr, k);
    if !AllDone(tr[k]) {
      var a := SomeTaskProceeds(names, tr[k]);
      var s' := UnblockedSteps(names, tr[k], a);
      assert Next(names, tr[k], s');
    }
  }

  lemma UnblockedSteps(names: set<Name>, s: State, a: Actor) returns (s': State)
    requires Inv(names, s) && a in s.pc && !s.pc[a].Done? && !Blocked(s, a)
    ensures Step(names, s, a, s')
  {
    assert PcOk(names, s, a);
    match s.pc[a]
    case Constructing => s' := PublishStep(s, a);
    case Looking(d) => s' := Goto(s, a, if s.info[d].HasComponent() then Constructing else Waiting(d));
    case Waiting(d) => s' := Goto(s, a, Constructing);
    case SelfCheck => s' := Goto(s, a, SelfClaim);
    case SelfClaim => s' := Goto(Touch(s, a.name, s.info[a.name].Claimed()), a, Done(true));
    case _ => s' := CancellerSteps(names, s, a);
  }

  lemma CancellerSteps(names: set<Name>, s: State, a: Actor) returns (s': State)
    requires Inv(names, s) && a in s.pc
    requires s.pc[a].Flagging? || s.pc[a].Deciding? || s.pc[a].Notifying? || s.pc[a].NotifyClaim?
    ensures CancelStep(names, s, a, s')
  {
    assert PcOk(names, s, a);
    match s.pc[a]
    case Flagging(todo) =>
      if todo == {} {
        s' := Goto(s, a, Deciding);
      } else {
        var c :| c in todo;
        s' := Goto(Touch(s, c, s.info[c].WithCancelled(true)), a, Flagging(todo - {c}));
      }
    case Deciding =>
      s' := if s.loadCancelled then Goto(s, a, Done(false)) else Goto(s, a, Notifying(names)).(loadCancelled := true);
    case Notifying(left) =>
      if left == {} {
        s' := Goto(s, a, Done(false));
      } else {
        var c :| c in left;
        s' := Goto(s, a, if s.info[c].HasComponent() then NotifyClaim(c, left - {c}) else Notifying(left - {c}));
      }
    case NotifyClaim(c, left) => s' := Goto(Touch(s, c, s.info[c].Claimed()), a, Notifying(left));
  }

  lemma SomeTaskProceeds(names: set<Name>, s: State) returns (a: Actor)
    requires Inv(names, s) && !AllDone(s)
    ensures a in s.pc && !s.pc[a].Done? && !Blocked(s, a)
  {
    var unfinished := set c | c in names && !s.pc[Boot(c)].Done?;
    if unfinished != {} {
      var c := HasSink(s.deps, unfinished);
      SinkNotBlocked(names, s, unfinished, c);
      a := Boot(c);
    } else {
      a :| a in s.pc && !s.pc[a].Done?;
      assert PcOk(names, s, a);
      assert forall c :: c in names ==> c !in unfinished;
    }
  }

  /** An unfinished task whose recorded dependencies have all finished can go on. */
  lemma SinkNotBlocked(names: set<Name>, s: State, unfinished: set<Name>, c: Name)
    requires Inv(names, s) && c in names
    requires unfinished == set x | x in names && !s.pc[Boot(x)].Done?
    requires forall y :: y in unfinished ==> !Edge(s.deps, c, y)
    ensures !Blocked(s, Boot(c))
  {
    assert PcOk(names, s, Boot(c));
    if s.pc[Boot(c)].Waiting? {
      var d := s.pc[Boot(c)].dep;
      assert Edge(s.deps, c, d) && d in names;
      assert InfoOk(names, s, d) && PcOk(names, s, Boot(d));
    }
  }

  /** While some component is uncreated and nothing was cancelled, some constructor is at work:
      it is not waiting for an uncreated component. */
  lemma SomeConstructorProceeds(names: set<Name>, tr: seq<State>, k: nat)
    requires Run(names, tr) && k < |tr|
    requires forall c :: c in names ==> !tr[k].info[c].cancelled
    requires forall a :: a in tr[k].pc ==> !MidFlagging(tr[k], a)
    requires exists c :: c in names && tr[k].info[c].life.Unborn?
    ensures exists c :: c in names && tr[k].info[c].life.Unborn? && !Blocked(tr[k], Boot(c))
  {
    RunInv(names, tr, k);
    var x :| x in names && tr[k].info[x].life.Unborn?;
    var c := UncreatedProceeds(names, tr[k], x);
  }

  lemma UncreatedProceeds(names: set<Name>, s: State, x: Name) returns (c: Name)
    requires Inv(names, s) && x in names && s.info[x].life.Unborn? && !s.info[x].cancelled
    requires forall a :: a in s.pc ==> !MidFlagging(s, a)
    ensures c in names && s.info[c].life.Unborn? && !Blocked(s, Boot(c))
  {
    assert InfoOk(names, s, x) && PcOk(names, s, Boot(x));
    var a := SomeTaskProceeds(names, s);
    assert PcOk(names, s, a);
    c := a.name;
    assert InfoOk(names, s, c);
  }

  /** The assertions in AddItDependsOn and AddDependsOnIt hold whenever an edge is recorded. */
  lemma EdgesRecordedInTime(names: set<Name>, tr: seq<State>, k: nat, c: Name, d: Name)
    requires Run(names, tr) && k < |tr| && c in names && d in names
    requires Boot(c) in tr[k].pc && tr[k].pc[Boot(c)].Constructing?
    ensures tr[k].info[c].stage == Null
    ensures tr[k].info[d].stage == Null || tr[k].info[d].stage == Created
  {
    RunInv(names, tr, k);
    assert InfoOk(names, tr[k], c) && InfoOk(names, tr[k], d);
  }

  /** At any time a component has been told about the cancellation at most once, and only if it was constructed. */
  lemma NotifiedAtMostOnce(names: set<Name>, tr: seq<State>, k: nat, c: Name)
    requires Run(names, tr) && k < |tr| && c in names
    ensures tr[k].info[c].notified <= 1
    ensures tr[k].info[c].notified == 1 ==> tr[k].info[c].life.Alive?
  {
    RunInv(names, tr, k);
    assert InfoOk(names, tr[k], c);
  }

  /** Once all tasks have finished, exactly the constructed components of a cancelled load have been told, once. */
  lemma NotifiedExactlyOnce(names: set<Name>, tr: seq<State>, c: Name)
    requires Run(names, tr) && c in names && AllDone(tr[|tr| - 1])
    ensures tr[|tr| - 1].info[c].notified ==
            if tr[|tr| - 1].loadCancelled && tr[|tr| - 1].info[c].life.Alive? then 1 else 0
  {
    RunInv(names, tr, |tr| - 1);
    assert InfoOk(names, tr[|tr| - 1], c);
  }

  /** A load that finished without cancellation has created every component. */
  lemma UncancelledLoadCreatesAll(names: set<Name>, s: State)
    requires Inv(names, s) && AllDone(s) && !s.loadCancelled
    ensures forall c :: c in names ==> s.info[c].life.Alive? && s.info[c].stage == Created && !s.info[c].cancelled
  {
    forall c | c in names ensures s.info[c].life.Alive? && s.info[c].stage == Created && !s.info[c].cancelled {
      assert InfoOk(names, s, c) && PcOk(names, s, Boot(c));
    }
  }

  // ---- what a constructor may do ------------------------------------------

  /** At any moment a running constructor may look up a component, ... */
  lemma MayLookUp(names: set<Name>, s: State, c: Name, d: Name) returns (s': State)
    requires Names(s, names) && c in names && d in names && s.pc[Boot(c)] == Constructing
    requires Acyclic(AddEdge(s.deps, c, d))
    ensures Next(names, s, s') && s'.info == s.info && s'.pc == s.pc[Boot(c) := Looking(d)]
    ensures forall x, y :: Edge(s'.deps, x, y) <==> Edge(s.deps, x, y) || (x == c && y == d)
  {
    hide Acyclic;
    s' := FindStep(s, Boot(c), d);
    assert Step(names, s, Boot(c), s');
  }

  /** ... be done, ... */
  lemma MayPublish(names: set<Name>, s: State, c: Name) returns (s': State)
    requires Names(s, names) && c in names && s.pc[Boot(c)] == Constructing
    ensures Next(names, s, s') && s'.deps == s.deps
    ensures s'.info == s.info[c := s.info[c].(life := Alive, stage := Created)]
  {
    hide Acyclic;
    s' := PublishStep(s, Boot(c));
    assert Step(names, s, Boot(c), s');
  }

  /** ... or fail, and then set about flagging everybody. */
  lemma MayFail(names: set<Name>, s: State, c: Name) returns (s': State)
    requires Names(s, names) && c in names && s.pc[Boot(c)] == Constructing
    ensures Next(names, s, s') && s' == s.(pc := s.pc[Boot(c) := Flagging(names)])
  {
    hide Acyclic;
    s' := Goto(s, Boot(c), Flagging(names));
    assert Step(names, s, Boot(c), s');
  }

  /** A lookup that would close a cycle is refused: no step of the constructor records it. */
  lemma CycleIsRefused(names: set<Name>, s: State, c: Name, d: Name, s': State)
    requires Names(s, names) && c in names && s.pc[Boot(c)] == Constructing && Step(names, s, Boot(c), s')
    requires !Edge(s.deps, c, d) && !Acyclic(AddEdge(s.deps, c, d))
    ensures !Edge(s'.deps, c, d)
  {
    hide Acyclic;
  }

  /** A constructor waits exactly while the other component is neither there nor flagged. */
  lemma WaitsExactly(names: set<Name>, s: State, c: Name, d: Name)
    requires Names(s, names) && c in names && d in names && s.pc[Boot(c)] == Waiting(d)
    ensures (exists s' :: Step(names, s, Boot(c), s')) <==> s.info[d].life.Alive? || s.info[d].cancelled
  {
    if s.info[d].life.Alive? || s.info[d].cancelled {
      assert Step(names, s, Boot(c), Goto(s, Boot(c), Constructing));
    }
  }
}
