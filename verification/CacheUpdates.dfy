/**
  * `CacheUpdateTrait::Impl`: which update a cache does next, and what each update leaves behind. An
  * update is begun and finished by two calls, so that invalidations, configuration changes and dumps
  * can come in between; only one update is under way at a time.
  */
module CacheUpdates {
  import opened Options
  import opened CacheConfig

  datatype UpdateType = Full | Incremental

  datatype Running = Running(kind: UpdateType, started: int, wall: int)

  /** A decision of the schedule: in which cycle, when, and between which bounds of the jitter. */
  datatype Slot = Slot(cycle: nat, at: int, earliest: int, latest: int, fair: bool)

  /**
    * An update that was begun; `hadData` says that a dump or an update had succeeded before, and
    * `slot` is there if the schedule chose its kind.
    */
  datatype Attempt = Attempt(kind: UpdateType, periodic: bool, hadData: bool, slot: Option<Slot>)

  /**
    * What is known about the schedule. A cycle ends with a successful full update or with a new
    * configuration. `draws` counts the jitters drawn since the last successful full update, `fair`
    * says that the jitter was drawn under the present configuration, `settled` that the schedule has
    * called for a full update in this cycle, and `patches` counts the new configurations.
    */
  datatype Book = Book(cycle: nat, draws: nat, fair: bool, settled: bool, patches: nat)

  const NEVER := 0

  ghost predicate LogOk(log: seq<Attempt>, allowed: Allowed) {
    forall a :: a in log ==>
      && (allowed == OnlyFull ==> a.kind == Full)
      && (a.periodic && a.kind == Incremental ==> a.hadData)
  }

  lemma LogOneMore(log: seq<Attempt>, allowed: Allowed, a: Attempt)
    requires LogOk(log, allowed)
    requires allowed == OnlyFull ==> a.kind == Full
    requires a.periodic && a.kind == Incremental ==> a.hadData
    ensures LogOk(log + [a], allowed)
  {
  }

  // ---- the schedule -------------------------------------------------------

  predicate WithinJitter(x: int, c: Config) { 0 - c.fullUpdateJitter <= x <= c.fullUpdateJitter }

  /** At most one draw per cycle, within bounds, and a due full update stays due. */
  ghost predicate ScheduleOk(c: Config, lastFull: int, clock: int, jitter: Option<int>, book: Book) {
    && book.draws == (if jitter.Some? then 1 else 0)
    && (jitter.Some? && book.fair ==> WithinJitter(jitter.value, c))
    && (jitter.None? || book.patches == 0 ==> book.fair)
    && (book.settled ==> jitter.Some? && clock >= lastFull + c.fullUpdateInterval + jitter.value)
  }

  lemma ScheduleLater(c: Config, lastFull: int, clock: int, later: int, jitter: Option<int>, book: Book)
    requires ScheduleOk(c, lastFull, clock, jitter, book) && clock <= later
    ensures ScheduleOk(c, lastFull, later, jitter, book)
  {
  }

  /** Neither a dump, nor a missing first update, nor an invalidation prescribes the next update. */
  predicate Ordinary(dumpFirst: Option<UpdateType>, lastUpdate: int, forceFull: bool) {
    dumpFirst.None? && lastUpdate != NEVER && !forceFull
  }

  /** The schedule is asked at all. */
  predicate Asked(c: Config, dumpFirst: Option<UpdateType>, lastUpdate: int, forceFull: bool) {
    Ordinary(dumpFirst, lastUpdate, forceFull) && c.allowed == FullAndIncremental
  }

  /** What the schedule knew before a decision and after it. */
  datatype Schedule = Schedule(jitter: Option<int>, book: Book)

  /** A decision of the schedule, between the earliest and the latest moment that the jitter allows. */
  ghost predicate ByJitter(c: Config, lastFull: int, now: int, roll: int, kind: UpdateType,
                           before: Schedule, after: Schedule)
  {
    var due := lastFull + c.fullUpdateInterval;
    && (after.book.fair && kind == Full ==> now >= due - c.fullUpdateJitter)
    && (after.book.fair && now >= due + c.fullUpdateJitter ==> kind == Full)
    && (before.book.settled ==> kind == Full)
    && (kind == Full <==> after.book.settled)
    && (kind == Full <==> after.jitter.Some? && now >= due + after.jitter.value)
    && (before.jitter.Some? ==> after.jitter == before.jitter)
    && (before.jitter.None? ==> after.jitter == if now >= due - c.fullUpdateJitter then Some(roll) else None)
    && after.book.(settled := before.book.settled, draws := before.book.draws) == before.book
  }

  function SlotOf(c: Config, lastFull: int, now: int, book: Book): Slot {
    var due := lastFull + c.fullUpdateInterval;
    Slot(book.cycle, now, due - c.fullUpdateJitter, due + c.fullUpdateJitter, book.fair)
  }

  // ---- the history of decisions ------------------------------------------

  /** Under one configuration a decision lies between its bounds. */
  predicate InBounds(a: Attempt) {
    a.slot.Some? && a.slot.value.fair ==>
      && (a.kind == Full ==> a.slot.value.at >= a.slot.value.earliest)
      && (a.slot.value.at >= a.slot.value.latest ==> a.kind == Full)
  }

  predicate SameCycle(a: Attempt, b: Attempt) {
    a.slot.Some? && b.slot.Some? && a.slot.value.cycle == b.slot.value.cycle
  }

  /** Once full, full again until the cycle ends. */
  ghost predicate Sticky(log: seq<Attempt>) {
    forall i, j :: 0 <= i < j < |log| && SameCycle(log[i], log[j]) && log[i].kind == Full ==> log[j].kind == Full
  }

  ghost predicate SlotsOk(log: seq<Attempt>, book: Book) {
    forall a :: a in log ==> InBounds(a) && (a.slot.Some? ==>
      && a.slot.value.cycle <= book.cycle
      && (book.patches == 0 ==> a.slot.value.fair)
      && (a.slot.value.cycle == book.cycle && a.kind == Full ==> book.settled))
  }

  ghost predicate History(log: seq<Attempt>, book: Book) { Sticky(log) && SlotsOk(log, book) }

  /** One more attempt, decided by the schedule or not. */
  lemma HistoryOneMore(log: seq<Attempt>, before: Book, book: Book, a: Attempt)
    requires History(log, before) && book.cycle == before.cycle && book.patches == before.patches
    requires before.settled ==> book.settled
    requires a.slot.Some? ==> InBounds(a) && a.slot.value.cycle == book.cycle
                              && (book.patches == 0 ==> a.slot.value.fair)
    requires a.slot.Some? ==> (before.settled ==> a.kind == Full) && (a.kind == Full ==> book.settled)
    ensures History(log + [a], book)
  {
    var more := log + [a];
    forall i, j | 0 <= i < j < |more| && SameCycle(more[i], more[j]) && more[i].kind == Full
      ensures more[j].kind == Full
    {
      if j == |log| { assert log[i] in log; }
    }
  }

  lemma HistorySettles(log: seq<Attempt>, before: Book, book: Book)
    requires History(log, before) && book.cycle == before.cycle && book.patches == before.patches
    requires before.settled ==> book.settled
    ensures History(log, book)
  {
  }

  /** A new cycle starts with nothing settled. */
  lemma HistoryNextCycle(log: seq<Attempt>, before: Book, book: Book)
    requires History(log, before) && book.cycle == before.cycle + 1 && book.patches >= before.patches
    ensures History(log, book)
  {
  }

  predicate AttemptOf(a: Attempt, kind: UpdateType, periodic: bool, hadData: bool) {
    a.kind == kind && a.periodic == periodic && a.hadData == hadData
  }

  /** What a decision has to satisfy to join the history. */
  lemma DecidedInBounds(c: Config, lastFull: int, now: int, roll: int, before: Schedule, after: Schedule, a: Attempt)
    requires ByJitter(c, lastFull, now, roll, a.kind, before, after)
    requires a.slot == Some(SlotOf(c, lastFull, now, after.book))
    ensures InBounds(a) && a.slot.value.cycle == after.book.cycle && a.slot.value.fair == after.book.fair
    ensures a.kind == Full <==> after.book.settled
  {
  }

  lemma FairUnlessPatched(c: Config, lastFull: int, clock: int, jitter: Option<int>, book: Book)
    requires ScheduleOk(c, lastFull, clock, jitter, book)
    ensures book.patches == 0 ==> book.fair
  {
  }

  lemma AddToHistory(log: seq<Attempt>, book: Book, a: Attempt)
    requires History(log, book)
    requires a.slot.Some? ==> InBounds(a) && a.slot.value.cycle == book.cycle
                              && (book.patches == 0 ==> a.slot.value.fair)
    requires a.slot.Some? ==> (a.kind == Full <==> book.settled)
    ensures History(log + [a], book)
  {
    hide History;
    HistoryOneMore(log, book, book, a);
  }

  class Updater {
    const staticConfig: Config
    var config: Config
    var forceFull: bool
    var dumpFirst: Option<UpdateType>
    var jitter: Option<int>
    var lastUpdate: int
    var lastFull: int
    var failedUpdates: nat
    var firstAttempted: bool
    var expirations: nat
    /** The update that holds the mutex. */
    var running: Option<Running>
    ghost var log: seq<Attempt>
    /** A dump or a successful update has set `lastUpdate`. */
    ghost var hasData: bool
    ghost var clock: int
    /** A full update was asked for while none was running, and none has succeeded since. */
    ghost var owed: bool
    ghost var book: Book

    ghost predicate Valid()
      reads this
    {
      && ValidConfig(staticConfig)
      && config.allowed == staticConfig.allowed && config.firstType == staticConfig.firstType
      && LogOk(log, staticConfig.allowed)
      && History(log, book)
      && (staticConfig.allowed == OnlyFull ==> dumpFirst != Some(Incremental))
      && (lastUpdate != NEVER || dumpFirst.Some? ==> hasData)
      && lastFull <= clock && (running.Some? ==> lastFull <= running.value.started <= clock)
      && (owed ==> forceFull)
      && ScheduleOk(config, lastFull, clock, jitter, book)
    }

    constructor (c: Config)
      requires ValidConfig(c)
      ensures Valid() && staticConfig == config == c && log == [] && !hasData && !firstAttempted && running.None?
      ensures !forceFull && dumpFirst.None? && lastUpdate == NEVER && clock == 0 && lastFull == 0 && jitter.None?
      ensures book == Book(0, 0, true, false, 0)
    {
      staticConfig, config := c, c;
      forceFull, dumpFirst, jitter := false, None, None;
      lastUpdate, lastFull, failedUpdates, firstAttempted, expirations := NEVER, 0, 0, false, 0;
      running := None;
      log, hasData, clock, owed := [], false, 0, false;
      book := Book(0, 0, true, false, 0);
    }

    method OnConfigUpdate(patch: Option<Patch>)
      requires Valid()
      modifies this`config, this`book
      ensures Valid()
      ensures config == if patch.Some? then MergeWith(staticConfig, patch.value) else staticConfig
      ensures book == Book(old(book).cycle + 1, old(book).draws, jitter.None?, false, old(book).patches + 1)
    {
      hide LogOk, ValidConfig, History;
      config := if patch.Some? then MergeWith(staticConfig, patch.value) else staticConfig;
      ghost var next := Book(book.cycle + 1, book.draws, jitter.None?, false, book.patches + 1);
      HistoryNextCycle(log, book, next);
      book := next;
    }

    /** The part of InvalidateAsync that changes what the next update is. */
    method Invalidate(requested: UpdateType)
      requires Valid()
      modifies this`forceFull, this`owed
      ensures Valid()
      ensures forceFull == (old(forceFull) || requested == Full || staticConfig.allowed == OnlyFull)
      ensures requested == Full && !(running.Some? && running.value.kind == Full) ==> owed
      ensures old(owed) ==> owed
    {
      var kind := requested;
      if staticConfig.allowed == OnlyFull && kind == Incremental {
        kind := Full;
      }
      if kind == Full {
        forceFull := true;
        if !(running.Some? && running.value.kind == Full) {
          owed := true;
        }
      }
    }

    method NextUpdateType(now: int, roll: int) returns (kind: UpdateType)
      requires Valid() && clock <= now && WithinJitter(roll, config)
      modifies this`jitter, this`book, this`clock
      ensures Valid() && clock == now
      ensures dumpFirst.Some? ==> kind == dumpFirst.value
      ensures dumpFirst.None? && (lastUpdate == NEVER || forceFull) ==> kind == Full
      ensures Ordinary(dumpFirst, lastUpdate, forceFull) && config.allowed == OnlyFull ==> kind == Full
      ensures Ordinary(dumpFirst, lastUpdate, forceFull) && config.allowed == OnlyIncremental ==> kind == Incremental
      ensures Asked(config, dumpFirst, lastUpdate, forceFull) ==>
                ByJitter(config, lastFull, now, roll, kind, old(Schedule(jitter, book)), Schedule(jitter, book))
      ensures !Asked(config, dumpFirst, lastUpdate, forceFull) ==> jitter == old(jitter) && book == old(book)
    {
      hide LogOk, ValidConfig, History;
      clock := now;
      if dumpFirst.Some? {
        return dumpFirst.value;
      }
      if lastUpdate == NEVER {
        return Full;
      }
      if forceFull {
        return Full;
      }
      match config.allowed {
        case OnlyFull =>
          return Full;
        case OnlyIncremental =>
          return Incremental;
        case FullAndIncremental =>
          ghost var before := book;
          if jitter.None? && now >= lastFull + config.fullUpdateInterval - config.fullUpdateJitter {
            jitter := Some(roll);
            book := book.(draws := book.draws + 1);
          }
          if jitter.Some? && now >= lastFull + config.fullUpdateInterval + jitter.value {
            book := book.(settled := true);
            HistorySettles(log, before, book);
            return Full;
          }
          HistorySettles(log, before, book);
          return Incremental;
      }
    }

    method OnUpdateSkipped()
      modifies this`failedUpdates, this`expirations
      ensures failedUpdates == old(failedUpdates) + 1
      ensures expirations == old(expirations) + if ExpiresAt(failedUpdates) then 1 else 0
    {
      failedUpdates := failedUpdates + 1;
      if staticConfig.failedUpdatesBeforeExpiration == Some(failedUpdates) {
        expirations := expirations + 1;
      }
    }

    ghost predicate Skips()
      reads this
    {
      !config.updatesEnabled && (firstAttempted || staticConfig.allowFirstUpdateFailure)
    }

    /** DoPeriodicUpdate up to the call of Update; `decided` and `started` are its two looks at the clock. */
    method BeginPeriodic(decided: int, started: int, wall: int, roll: int) returns (begun: bool)
      requires Valid() && running.None? && clock <= decided <= started && WithinJitter(roll, config)
      modifies this`jitter, this`book, this`clock, this`firstAttempted, this`failedUpdates, this`expirations
      modifies this`running, this`log
      ensures Valid() && firstAttempted
      ensures begun <==> !old(Skips())
      ensures begun <==> config.updatesEnabled || !(old(firstAttempted) || staticConfig.allowFirstUpdateFailure)
      ensures clock == if begun then started else old(clock)
      ensures !begun ==> running.None? && log == old(log) && failedUpdates == old(failedUpdates) + 1
      ensures expirations == old(expirations) + if !begun && ExpiresAt(failedUpdates) then 1 else 0
      ensures begun ==> running.Some? && running.value.started == started && running.value.wall == wall
      ensures begun ==> failedUpdates == old(failedUpdates) && |log| == |old(log)| + 1 && log[..|log| - 1] == old(log)
                        && AttemptOf(log[|log| - 1], running.value.kind, true, hasData)
      ensures begun && dumpFirst.Some? ==> running.value.kind == dumpFirst.value
      ensures begun && dumpFirst.None? && (lastUpdate == NEVER || forceFull) ==> running.value.kind == Full
      ensures begun && dumpFirst.None? && owed ==> running.value.kind == Full
      ensures begun && Asked(config, dumpFirst, lastUpdate, forceFull) ==>
                && log[|log| - 1].slot == Some(SlotOf(config, lastFull, decided, book))
                && ByJitter(config, lastFull, decided, roll, running.value.kind,
                            old(Schedule(jitter, book)), Schedule(jitter, book))
      ensures !begun || !Asked(config, dumpFirst, lastUpdate, forceFull) ==> jitter == old(jitter) && book == old(book)
      ensures begun && !Asked(config, dumpFirst, lastUpdate, forceFull) ==> log[|log| - 1].slot.None?
    {
      hide LogOk, ValidConfig, ScheduleOk, WithinJitter, ByJitter, History, SlotOf;
      var isFirst := !firstAttempted;
      firstAttempted := true;
      if !config.updatesEnabled && (!isFirst || staticConfig.allowFirstUpdateFailure) {
        OnUpdateSkipped();
        return false;
      }
      ghost var before := Schedule(jitter, book);
      var kind := NextUpdateType(decided, roll);
      ghost var slot := if Asked(config, dumpFirst, lastUpdate, forceFull)
                        then Some(SlotOf(config, lastFull, decided, book)) else None;
      ghost var a := Attempt(kind, true, hasData, slot);
      if slot.Some? {
        DecidedInBounds(config, lastFull, decided, roll, before, Schedule(jitter, book), a);
        assert book.patches == 0 ==> book.fair by { FairUnlessPatched(config, lastFull, clock, jitter, book); }
      }
      AddToHistory(log, book, a);
      Begin(a, started, wall, kind);
      begun := true;
    }

    ghost predicate ExpiresAt(failures: nat)
      reads this
    {
      staticConfig.failedUpdatesBeforeExpiration == Some(failures)
    }

    method Begin(ghost a: Attempt, started: int, wall: int, kind: UpdateType)
      requires Valid() && running.None? && clock <= started && kind == a.kind
      requires staticConfig.allowed == OnlyFull ==> a.kind == Full
      requires a.periodic && a.kind == Incremental ==> a.hadData
      requires History(log + [a], book)
      modifies this`running, this`log, this`clock
      ensures Valid() && clock == started && running == Some(Running(kind, started, wall))
      ensures log == old(log) + [a]
    {
      hide LogOk, ValidConfig, ScheduleOk, History;
      running := Some(Running(kind, started, wall));
      LogOneMore(log, staticConfig.allowed, a);
      ScheduleLater(config, lastFull, clock, started, jitter, book);
      log := log + [a];
      clock := started;
    }

    /** UpdateSyncDebug up to the call of Update. */
    method BeginDebug(requested: UpdateType, started: int, wall: int) returns (begun: bool)
      requires Valid() && running.None? && clock <= started
      modifies this`clock, this`running, this`log
      ensures Valid() && clock == if begun then started else old(clock)
      ensures begun <==> config.updatesEnabled
      ensures !begun ==> running.None? && log == old(log)
      ensures begun ==>
                && running == Some(Running(if staticConfig.allowed == OnlyFull then Full else requested, started, wall))
                && log == old(log) + [Attempt(running.value.kind, false, hasData, None)]
    {
      hide LogOk, ValidConfig, ScheduleOk, History;
      var kind := requested;
      if staticConfig.allowed == OnlyFull && kind == Incremental {
        kind := Full;
      }
      if !config.updatesEnabled {
        return false;
      }
      ghost var a := Attempt(kind, false, hasData, None);
      AddToHistory(log, book, a);
      Begin(a, started, wall, kind);
      begun := true;
    }

    /** The rest of DoUpdate: Update has returned or thrown. */
    method Finish(success: bool)
      requires Valid() && running.Some?
      modifies this`forceFull, this`jitter, this`lastFull, this`dumpFirst, this`failedUpdates, this`expirations
      modifies this`lastUpdate, this`running, this`hasData, this`owed, this`book
      ensures Valid() && running.None?
      ensures forceFull == (old(forceFull) && !(success && old(running).value.kind == Full))
      ensures success && old(running).value.kind == Full ==>
                && jitter.None? && lastFull == old(running).value.started && !owed
                && book == Book(old(book).cycle + 1, 0, true, false, old(book).patches)
      ensures !(success && old(running).value.kind == Full) ==>
                jitter == old(jitter) && lastFull == old(lastFull) && owed == old(owed) && book == old(book)
      ensures success ==> dumpFirst.None? && failedUpdates == 0 && lastUpdate == old(running).value.wall && hasData
      ensures success ==> expirations == old(expirations)
      ensures !success ==> dumpFirst == old(dumpFirst) && failedUpdates == old(failedUpdates) + 1
                           && lastUpdate == old(lastUpdate) && hasData == old(hasData)
      ensures !success ==> expirations == old(expirations) + if ExpiresAt(failedUpdates) then 1 else 0
    {
      hide LogOk, ValidConfig, ScheduleOk, History;
      var r := running.value;
      running := None;
      if success {
        Succeed(r);
      } else {
        OnUpdateSkipped();
      }
    }

    method Succeed(r: Running)
      requires Valid() && running.None? && lastFull <= r.started <= clock
      modifies this`forceFull, this`jitter, this`lastFull, this`dumpFirst, this`failedUpdates, this`lastUpdate
      modifies this`hasData, this`owed, this`book
      ensures Valid()
      ensures forceFull == (old(forceFull) && r.kind != Full)
      ensures r.kind == Full ==> jitter.None? && lastFull == r.started && !owed
                                 && book == Book(old(book).cycle + 1, 0, true, false, old(book).patches)
      ensures r.kind != Full ==> jitter == old(jitter) && lastFull == old(lastFull)
                                 && owed == old(owed) && book == old(book)
      ensures dumpFirst.None? && failedUpdates == 0 && lastUpdate == r.wall && hasData
    {
      hide LogOk, ValidConfig, WithinJitter, History;
      if r.kind == Full {
        forceFull := false;
        jitter := None;
        lastFull := r.started;
        owed := false;
        ghost var next := Book(book.cycle + 1, 0, true, false, book.patches);
        HistoryNextCycle(log, book, next);
        book := next;
      }
      dumpFirst := None;
      failedUpdates := 0;
      lastUpdate := r.wall;
      hasData := true;
    }

    /** A dump was read. */
    method LoadDump(time: int)
      requires Valid()
      modifies this`lastUpdate, this`dumpFirst, this`hasData
      ensures Valid() && hasData && lastUpdate == time
      ensures dumpFirst == Some(if config.firstType == FirstFull then Full else Incremental)
    {
      lastUpdate := time;
      dumpFirst := Some(if config.firstType == FirstFull then Full else Incremental);
      hasData := true;
    }

    /** DoPeriodicUpdate as a whole, when nothing comes in between. */
    method UpdateOnce(decided: int, started: int, wall: int, roll: int, success: bool) returns (failed: bool)
      requires Valid() && running.None? && clock <= decided <= started && WithinJitter(roll, config)
      modifies this
      ensures Valid() && running.None? && firstAttempted && config == old(config)
      ensures failed == (!old(Skips()) && !success)
      ensures !old(Skips()) && success ==> hasData && lastUpdate == wall && |log| == |old(log)| + 1
      ensures old(hasData) ==> hasData
    {
      hide LogOk, ValidConfig, ScheduleOk, ByJitter, WithinJitter;
      var begun := BeginPeriodic(decided, started, wall, roll);
      if begun {
        Finish(success);
      }
      failed := begun && !success;
    }

    /**
      * StartPeriodicUpdates without the handshake with invalidations: read a dump, do the first update
      * if one is called for, and prescribe what follows. `success` is how that update ends.
      */
    method Start(dump: Option<int>, noFirstUpdate: bool, periodicEnabled: bool,
                 decided: int, started: int, wall: int, roll: int, success: bool) returns (threw: bool)
      requires Valid() && running.None? && clock <= decided <= started && WithinJitter(roll, config)
      modifies this
      ensures Valid() && running.None?
      ensures config == old(config)
      ensures firstAttempted ==
              (old(firstAttempted)
               || (!(noFirstUpdate && periodicEnabled)
                   && ((if dump.Some? then dump.value else old(lastUpdate)) == NEVER || config.firstMode != Skip)))
      ensures !threw && MustHaveData(noFirstUpdate, periodicEnabled, staticConfig, config, old(firstAttempted)) ==>
                && hasData
                && (dump.Some? && config.firstMode == Required ==>
                      success && |log| == |old(log)| + 1 && lastUpdate == wall)
      ensures threw <==>
                && !(noFirstUpdate && periodicEnabled)
                && ((if dump.Some? then dump.value else old(lastUpdate)) == NEVER || config.firstMode != Skip)
                && (config.updatesEnabled || !old(firstAttempted)) && !success
                && !staticConfig.allowFirstUpdateFailure && (dump.None? || config.firstMode == Required)
      ensures !threw && dump.Some? && config.firstType == IncrementalThenAsyncFull ==> dumpFirst == Some(Full)
    {
      hide LogOk, ValidConfig, ScheduleOk, ByJitter, WithinJitter;
      threw := false;
      if dump.Some? {
        LoadDump(dump.value);
      }
      if (lastUpdate == NEVER || config.firstMode != Skip) && (!noFirstUpdate || !periodicEnabled) {
        var failed := UpdateOnce(decided, started, wall, roll, success);
        if failed && !(dump.Some? && config.firstMode != Required) && !staticConfig.allowFirstUpdateFailure {
          return true;
        }
      }
      if dump.Some? && config.firstType == IncrementalThenAsyncFull {
        dumpFirst := Some(Full);
      }
    }
  }

  /** The first update may neither fail, nor be left out, nor be skipped. */
  predicate MustHaveData(noFirstUpdate: bool, periodicEnabled: bool, fixed: Config, c: Config, attempted: bool) {
    && !fixed.allowFirstUpdateFailure && !(noFirstUpdate && periodicEnabled)
    && (c.updatesEnabled || !attempted)
  }

  // ---- what a late invalidation is worth ---------------------------------

  /**
    * A full update asked for while a full update runs is forgotten when that one succeeds: the next
    * periodic update is incremental. Asked for at any other time it is owed until a full update that
    * begins later has succeeded.
    */
  method LateInvalidationIsForgotten(c: Config) returns (u: Updater)
    requires ValidConfig(c) && c.allowed == FullAndIncremental && c.updatesEnabled
    requires c.fullUpdateJitter + 1 < c.fullUpdateInterval
    ensures u.Valid() && u.running.Some? && u.running.value.kind == Incremental && !u.forceFull
  {
    hide LogOk, ValidConfig;
    u := new Updater(c);
    var begun := u.BeginPeriodic(0, 0, 1, 0);
    u.Invalidate(Full);
    u.Finish(true);
    begun := u.BeginPeriodic(1, 1, 2, 0);
  }

  /** Asked for during an update, a full update is forgotten if and only if that one is full and succeeds. */
  method RequestDuringUpdate(u: Updater, success: bool)
    requires u.Valid() && u.running.Some?
    modifies u
    ensures u.Valid() && u.running.None?
    ensures !u.forceFull <==> success && old(u.running).value.kind == Full
  {
    hide LogOk, ScheduleOk, ValidConfig, History;
    u.Invalidate(Full);
    u.Finish(success);
  }

  /** An owed full update is what is done next, unless a dump prescribes otherwise. */
  method OwedUpdateComesNext(u: Updater, requested: UpdateType, decided: int, started: int, wall: int, roll: int)
    returns (begun: bool)
    requires u.Valid() && u.running.None? && u.clock <= decided <= started && WithinJitter(roll, u.config)
    requires requested == Full || u.staticConfig.allowed == OnlyFull
    modifies u
    ensures u.Valid() && begun == u.running.Some?
    ensures begun && u.dumpFirst.None? ==> u.running.value.kind == Full
  {
    hide LogOk, ScheduleOk, ValidConfig;
    u.Invalidate(requested);
    begun := u.BeginPeriodic(decided, started, wall, roll);
  }

  // ---- whole histories ----------------------------------------------------

  /** Anything that can happen to a cache, with its outcomes and times. */
  datatype Operation =
    | Patched(patch: Option<Patch>)
    | Invalidated(requested: UpdateType)
    | DumpLoaded(time: int)
    | PeriodicBegun(decided: int, started: int, wall: int, roll: int)
    | DebugBegun(requested: UpdateType, started: int, wall: int)
    | Finished(success: bool)

  /** The operation can take place: one update at a time, a clock that does not go back, a jitter in bounds. */
  predicate Possible(u: Updater, op: Operation, now: int)
    reads u
  {
    match op
    case PeriodicBegun(decided, started, _, roll) =>
      u.running.None? && now <= decided <= started && WithinJitter(roll, u.config)
    case DebugBegun(_, started, _) => u.running.None? && now <= started
    case Finished(_) => u.running.Some?
    case _ => true
  }

  function After(op: Operation, now: int): int {
    match op
    case PeriodicBegun(_, started, _, _) => started
    case DebugBegun(_, started, _) => started
    case _ => now
  }

  method Perform(u: Updater, op: Operation, now: int)
    requires u.Valid() && Possible(u, op, now) && u.clock <= now
    modifies u
    ensures u.Valid() && u.clock <= After(op, now)
    ensures u.book.patches == old(u.book.patches) + if op.Patched? then 1 else 0
  {
    hide LogOk, ScheduleOk, ValidConfig, History, WithinJitter, SlotOf;
    match op {
      case Patched(patch) => u.OnConfigUpdate(patch);
      case Invalidated(requested) => u.Invalidate(requested);
      case DumpLoaded(time) => u.LoadDump(time);
      case PeriodicBegun(decided, started, wall, roll) =>
        var begun := u.BeginPeriodic(decided, started, wall, roll);
      case DebugBegun(requested, started, wall) =>
        var begun := u.BeginDebug(requested, started, wall);
      case Finished(success) => u.Finish(success);
    }
  }

  /**
    * A cache from its construction through any sequence of operations (impossible ones are left out):
    * where only full updates are allowed none is incremental; a periodic incremental update follows a
    * dump or a success; a full update that the schedule has called for is called for again until one
    * succeeds or the configuration changes; and under one configuration every decision of the schedule
    * lies within the bounds of the jitter.
    */
  method Replay(c: Config, operations: seq<Operation>) returns (u: Updater)
    requires ValidConfig(c)
    ensures fresh(u) && u.Valid()
    ensures c.allowed == OnlyFull ==> forall a :: a in u.log ==> a.kind == Full
    ensures forall a :: a in u.log && a.periodic && a.kind == Incremental ==> a.hadData
    ensures Sticky(u.log)
    ensures (forall op :: op in operations ==> !op.Patched?) ==>
              forall a :: a in u.log && a.slot.Some? ==> a.slot.value.fair && InBounds(a)
  {
    hide LogOk, ScheduleOk, ValidConfig, History, Sticky, InBounds;
    u := new Updater(c);
    var now := 0;
    for i := 0 to |operations|
      invariant fresh(u) && u.Valid() && u.clock <= now && u.staticConfig == c
      invariant (forall op :: op in operations[..i] ==> !op.Patched?) ==> u.book.patches == 0
    {
      assert operations[i] in operations[..i + 1];
      assert forall op :: op in operations[..i] ==> op in operations[..i + 1];
      if Possible(u, operations[i], now) {
        Perform(u, operations[i], now);
        now := After(operations[i], now);
      }
    }
    assert operations[..|operations|] == operations;
    ReadHistory(u.log, u.book, c.allowed);
  }

  lemma ReadHistory(log: seq<Attempt>, book: Book, allowed: Allowed)
    requires LogOk(log, allowed) && History(log, book)
    ensures allowed == OnlyFull ==> forall a :: a in log ==> a.kind == Full
    ensures forall a :: a in log && a.periodic && a.kind == Incremental ==> a.hadData
    ensures Sticky(log)
    ensures book.patches == 0 ==> forall a :: a in log && a.slot.Some? ==> a.slot.value.fair && InBounds(a)
  {
  }
}
