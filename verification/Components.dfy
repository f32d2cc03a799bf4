/** One `ComponentInfo`: its fields as a value, and the class whose methods update them
    under the component's mutex. */
module Components {
  import opened Graphs

  datatype Stage = Null | Created | Running | ReadyForClearing

  /** Where the component object itself is: `component_` is non-null exactly while `Alive`. */
  datatype Life = Unborn | Alive | Dying | Gone

  /** `notified` counts the calls of the component's own `OnLoadingCancelled`. */
  datatype Info = Info(life: Life, stage: Stage, cancelled: bool, cancelClaimed: bool, notified: nat) {
    predicate HasComponent() { life.Alive? }

    function Published(): Info { this.(life := Alive, stage := Created) }

    function WithCancelled(flag: bool): Info { this.(cancelled := flag) }

    function WithStage(s: Stage): Info { this.(stage := s) }

    /** The exchange on `on_loading_cancelled_called_` followed by the callback. */
    function Claimed(): Info {
      if cancelClaimed then this else this.(cancelClaimed := true, notified := notified + 1)
    }

    function Extracted(): Info { if life.Alive? then this.(life := Dying) else this }

    function Destroyed(): Info { if life.Dying? then this.(life := Gone) else this }
  }

  type Infos = map<Name, Info>

  const FRESH := Info(Unborn, Null, false, false, 0)

  class ComponentInfo {
    var life: Life
    var stage: Stage
    var stageSwitchingCancelled: bool
    var onLoadingCancelledCalled: bool
    var notified: nat

    ghost function View(): Info
      reads this
    {
      Info(life, stage, stageSwitchingCancelled, onLoadingCancelledCalled, notified)
    }

    constructor ()
      ensures View() == FRESH
    {
      life, stage, stageSwitchingCancelled, onLoadingCancelledCalled, notified := Unborn, Null, false, false, 0;
    }

    /** Publication, then the cancellation callback if the cancel flag was seen under the lock. */
    method SetComponent()
      modifies this
      ensures View() ==
              if old(stageSwitchingCancelled) then old(View()).Published().Claimed() else old(View()).Published()
    {
      life, stage := Alive, Created;
      var callOnLoadingCancelled := stageSwitchingCancelled;
      if callOnLoadingCancelled {
        OnLoadingCancelled();
      }
    }

    method OnLoadingCancelled()
      modifies this
      ensures View() == if old(View()).HasComponent() then old(View()).Claimed() else old(View())
    {
      if life != Alive {
        return;
      }
      var before := onLoadingCancelledCalled;
      onLoadingCancelledCalled := true;
      if before {
        return;
      }
      notified := notified + 1;
    }

    method SetStageSwitchingCancelled(cancelled: bool)
      modifies this
      ensures View() == old(View()).WithCancelled(cancelled)
    {
      stageSwitchingCancelled := cancelled;
    }

    method SetStage(s: Stage)
      modifies this
      ensures View() == old(View()).WithStage(s)
    {
      stage := s;
    }

    method ClearComponent()
      modifies this
      ensures View() == if old(View()).HasComponent() then old(View()).Extracted().Destroyed() else old(View())
    {
      if life != Alive {
        return;
      }
      life := Dying;
      life := Gone;
    }
  }

  /** However publication and any number of cancellation calls are ordered, the callback runs at most once. */
  lemma {:induction false} ClaimsNotifyOnce(i: Info, n: nat)
    requires i.notified == if i.cancelClaimed then 1 else 0
    ensures ClaimedTimes(i, n).notified == if i.cancelClaimed || n > 0 then 1 else 0
  {
    if n > 0 {
      ClaimsNotifyOnce(i, n - 1);
      ClaimedTimesClaims(i, n - 1);
    }
  }

  function ClaimedTimes(i: Info, n: nat): Info {
    if n == 0 then i else ClaimedTimes(i, n - 1).Claimed()
  }

  lemma {:induction false} ClaimedTimesClaims(i: Info, n: nat)
    ensures ClaimedTimes(i, n).cancelClaimed <==> i.cancelClaimed || n > 0
  {
    if n > 0 { ClaimedTimesClaims(i, n - 1); }
  }

  /**
    * `calls` runs of CancelComponentsLoad as one component sees them. Each raises the flag; only the
    * one that finds `components_load_cancelled_` unset goes on to notify.
    */
  method CancelRepeatedly(c: ComponentInfo, loadCancelled: bool, calls: nat) returns (loadCancelled': bool)
    modifies c
    ensures loadCancelled' <==> loadCancelled || calls > 0
    ensures c.View() == if calls == 0 then old(c.View())
                        else if !loadCancelled && old(c.View()).HasComponent()
                        then old(c.View()).WithCancelled(true).Claimed()
                        else old(c.View()).WithCancelled(true)
  {
    loadCancelled' := loadCancelled;
    for i := 0 to calls
      invariant loadCancelled' <==> loadCancelled || i > 0
      invariant c.View() == if i == 0 then old(c.View())
                            else if !loadCancelled && old(c.View()).HasComponent()
                            then old(c.View()).WithCancelled(true).Claimed()
                            else old(c.View()).WithCancelled(true)
    {
      c.SetStageSwitchingCancelled(true);
      var before := loadCancelled';
      loadCancelled' := true;
      if !before {
        c.OnLoadingCancelled();
      }
    }
  }

  /**
    * Cancellations before and after publication: although all but the first stop at the test-and-set,
    * the component hears of them exactly once, if there are any.
    */
  method LoadUnderCancellation(c: ComponentInfo, before: nat, after: nat)
    requires c.View() == FRESH
    modifies c
    ensures c.View().HasComponent() && c.View().stage == Created
    ensures c.View().notified == if before + after > 0 then 1 else 0
  {
    var loadCancelled := CancelRepeatedly(c, false, before);
    c.SetComponent();
    loadCancelled := CancelRepeatedly(c, loadCancelled, after);
  }
}
