/**
  * InvalidateAsync against StartPeriodicUpdates: every atomic access to `first_update_invalidation_`
  * is a step of its own, and any number of invalidations run beside the start of the cache.
  */
module CacheHandshake {

  type Id = nat

  datatype Mark = No | Yes | Finished

  /** Where StartPeriodicUpdates stands; it may throw and be called again until it succeeds. */
  datatype Starter = NotStarted | Deciding | AboutToUpdate | Updating | Finishing | MustRequest | Done

  /** An invalidation: under way, past its compare-and-exchange and obliged to ask, or returned. */
  datatype Caller = Calling | Requesting(swapped: nat) | Returned(swapped: nat)

  datatype State = State(
    starter: Starter,
    mark: Mark,
    callers: map<Id, Caller>,
    now: nat,
    /** When an update last began or a step was last forced. */
    served: nat,
    /** When the mark was last reset for a first update; zero if it never was. */
    reset: nat)

  function Initial(): State { State(NotStarted, No, map[], 1, 0, 0) }

  datatype Event =
    | Enter | SkipFirst | ResetMark | BeginUpdate | EndUpdate | Throw | Exchange | StarterRequests
    | Call(id: Id) | Swap(id: Id) | CallerRequests(id: Id)

  predicate Enabled(s: State, e: Event) {
    match e
    case Enter => s.starter == NotStarted
    case SkipFirst => s.starter == Deciding
    case ResetMark => s.starter == Deciding
    case BeginUpdate => s.starter == AboutToUpdate
    case EndUpdate => s.starter == Updating
    case Throw => s.starter == Deciding || s.starter == Updating
    case Exchange => s.starter == Finishing
    case StarterRequests => s.starter == MustRequest
    case Call(id) => id !in s.callers
    case Swap(id) => id in s.callers && s.callers[id].Calling?
    case CallerRequests(id) => id in s.callers && s.callers[id].Requesting?
  }

  function Apply(s: State, e: Event): State
    requires Enabled(s, e)
  {
    match e
    case Enter => s.(starter := Deciding)
    case SkipFirst => s.(starter := Finishing, reset := 0)
    case ResetMark => s.(starter := AboutToUpdate, mark := No, reset := s.now)
    case BeginUpdate => s.(starter := Updating, served := s.now)
    case EndUpdate => s.(starter := Finishing)
    case Throw => s.(starter := NotStarted)
    case Exchange => s.(starter := if s.mark == Yes then MustRequest else Done, mark := Finished)
    case StarterRequests => s.(starter := Done, served := s.now)
    case Call(id) => s.(callers := s.callers[id := Calling])
    case Swap(id) =>
      s.(mark := if s.mark == No then Yes else s.mark,
         callers := s.callers[id := if s.mark == Finished then Requesting(s.now) else Returned(s.now)])
    case CallerRequests(id) =>
      s.(served := s.now, callers := s.callers[id := Returned(s.callers[id].swapped)])
  }

  function Next(s: State, e: Event): State
    requires Enabled(s, e)
  {
    Apply(s, e).(now := s.now + 1)
  }

  datatype Played = Impossible | At(s: State)

  /** Where the events lead from the initial state, if each is enabled in its turn. */
  function Play(events: seq<Event>): Played {
    if events == [] then At(Initial())
    else
      var last := |events| - 1;
      match Play(events[..last])
      case Impossible => Impossible
      case At(s) => if Enabled(s, events[last]) then At(Next(s, events[last])) else Impossible
  }

  predicate Run(events: seq<Event>, s: State) { Play(events) == At(s) }

  /** Somebody is going to begin an update or to ask for one. */
  predicate Pending(s: State) {
    || s.starter == AboutToUpdate || s.starter == MustRequest
    || (s.mark == Yes && s.starter != Done)
  }

  predicate CallerOk(s: State, c: Caller) {
    match c
    case Calling => true
    case Requesting(t) => t < s.now && s.mark == Finished
    case Returned(t) => t < s.now && (t < s.served || Pending(s))
  }

  ghost predicate CallersOk(s: State) {
    forall id :: id in s.callers ==> CallerOk(s, s.callers[id])
  }

  /** Once the mark was reset, it is set again only by an invalidation that came later. */
  ghost predicate MarkOk(s: State) {
    && (s.mark == Finished <==> s.starter == MustRequest || s.starter == Done)
    && ((s.mark == Yes || s.starter == MustRequest) && s.reset > 0 ==>
          exists id :: id in s.callers && Later(s.callers[id], s.reset))
  }

  predicate Later(c: Caller, t: nat) { !c.Calling? && c.swapped > t }

  ghost predicate Inv(s: State) {
    && s.served < s.now && s.reset < s.now
    && CallersOk(s) && MarkOk(s)
  }

  lemma NextCallersOk(s: State, e: Event)
    requires Inv(s) && Enabled(s, e)
    ensures CallersOk(Next(s, e))
  {
    var s' := Next(s, e);
    forall id | id in s'.callers
      ensures CallerOk(s', s'.callers[id])
    {
      if id in s.callers { assert CallerOk(s, s.callers[id]); }
    }
  }

  lemma NextMarkOk(s: State, e: Event)
    requires Inv(s) && Enabled(s, e)
    ensures MarkOk(Next(s, e))
  {
    hide CallersOk;
    var s' := Next(s, e);
    if (s'.mark == Yes || s'.starter == MustRequest) && s'.reset > 0 {
      if e.Swap? && s.mark == No {
        assert Later(s'.callers[e.id], s'.reset);
      } else {
        var id :| id in s.callers && Later(s.callers[id], s.reset);
        assert id in s'.callers && Later(s'.callers[id], s'.reset);
      }
    }
  }

  lemma NextInv(s: State, e: Event)
    requires Inv(s) && Enabled(s, e)
    ensures Inv(Next(s, e))
  {
    hide CallersOk, MarkOk;
    NextCallersOk(s, e);
    NextMarkOk(s, e);
  }

  lemma {:induction false} RunInv(events: seq<Event>, s: State)
    requires Run(events, s)
    ensures Inv(s)
    decreases |events|
  {
    hide Inv, Enabled, Next;
    if events == [] {
      InitialInv();
    } else {
      var last := |events| - 1;
      var before := Play(events[..last]).s;
      RunInv(events[..last], before);
      NextInv(before, events[last]);
    }
  }

  lemma InitialInv()
    ensures Inv(Initial())
  {
  }

  /**
    * No lost invalidation: once the start has succeeded, every call that has returned was followed by
    * the beginning of an update or by a forced step.
    */
  lemma NoLostInvalidation(events: seq<Event>, s: State, id: Id)
    requires Run(events, s) && s.starter == Done
    requires id in s.callers && s.callers[id].Returned?
    ensures s.served > s.callers[id].swapped
  {
    RunInv(events, s);
    assert CallerOk(s, s.callers[id]);
  }

  /** Until then somebody is still bound to serve it. */
  lemma UnservedIsPending(events: seq<Event>, s: State, id: Id)
    requires Run(events, s)
    requires id in s.callers && s.callers[id].Returned? && s.served <= s.callers[id].swapped
    ensures Pending(s)
  {
    RunInv(events, s);
    assert CallerOk(s, s.callers[id]);
  }

  /** A pending invalidation is served before the start can finish: no step makes it go away unserved. */
  lemma PendingIsServed(events: seq<Event>, s: State, e: Event)
    requires Run(events, s) && Enabled(s, e) && Pending(s)
    ensures Pending(Next(s, e)) || Next(s, e).served == s.now
  {
    RunInv(events, s);
  }

  /** The start asks for an update after its first one only if an invalidation came after the reset. */
  lemma NoExtraUpdate(events: seq<Event>, s: State)
    requires Run(events, s) && s.starter == MustRequest && s.reset > 0
    ensures exists id :: id in s.callers && Later(s.callers[id], s.reset)
  {
    RunInv(events, s);
  }

  /** A caller can always go on; so can the start until it is done. */
  lemma NeverStuck(s: State)
    ensures s.starter != Done ==> exists e :: Enabled(s, e) && !e.Call?
    ensures forall id :: id in s.callers && !s.callers[id].Returned? ==>
              Enabled(s, Swap(id)) || Enabled(s, CallerRequests(id))
  {
    match s.starter
    case NotStarted => assert Enabled(s, Enter);
    case Deciding => assert Enabled(s, SkipFirst);
    case AboutToUpdate => assert Enabled(s, BeginUpdate);
    case Updating => assert Enabled(s, EndUpdate);
    case Finishing => assert Enabled(s, Exchange);
    case MustRequest => assert Enabled(s, StarterRequests);
    case Done =>
  }
}
