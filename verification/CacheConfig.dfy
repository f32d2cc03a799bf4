/** Static configuration of a cache, and the patches that replace part of it at run time. */
module CacheConfig {
  import opened Options

  datatype Result<+T> = Ok(value: T) | Error(why: ConfigError)

  datatype ConfigError =
    | BothIntervalsNeeded
    | FullIntervalNotAllowed
    | IntervalNotSet
    | FirstModeNotSet
    | DumpAgeNotSet
    | FirstTypeImpossible
    | FirstTypeNotSet
    | NotANumber
    | NegativeDuration

  datatype Allowed = OnlyFull | OnlyIncremental | FullAndIncremental

  datatype FirstMode = Required | BestEffort | Skip

  datatype FirstType = FirstFull | FirstIncremental | IncrementalThenAsyncFull

  /** The dump section of the settings. */
  datatype DumpSettings = DumpSettings(mode: Option<FirstMode>, kind: Option<FirstType>, maxAgeSet: bool)

  /** The settings as written; durations are milliseconds. */
  datatype Settings = Settings(
    updateTypes: Option<Allowed>,
    updateInterval: Option<nat>,
    updateJitter: Option<nat>,
    fullUpdateInterval: Option<nat>,
    fullUpdateJitter: Option<nat>,
    updatesEnabled: bool,
    firstUpdateFailOk: bool,
    failedUpdatesBeforeExpiration: Option<nat>,
    dump: Option<DumpSettings>)

  datatype Config = Config(
    allowed: Allowed,
    allowFirstUpdateFailure: bool,
    failedUpdatesBeforeExpiration: Option<nat>,
    firstMode: FirstMode,
    firstType: FirstType,
    updateInterval: nat,
    updateJitter: nat,
    fullUpdateInterval: nat,
    fullUpdateJitter: nat,
    updatesEnabled: bool)

  function DefaultJitter(interval: nat): nat { interval / 10 }

  function UpdateMode(s: Settings): Allowed {
    if s.updateTypes.Some? then s.updateTypes.value
    else if s.fullUpdateInterval.Some? && s.updateInterval.Some? then FullAndIncremental
    else OnlyFull
  }

  /** What every configuration that was accepted satisfies. */
  predicate ValidConfig(c: Config) {
    && c.updateInterval > 0 && c.fullUpdateInterval > 0
    && (c.allowed != FullAndIncremental ==> c.fullUpdateInterval == c.updateInterval)
    && (c.allowed == OnlyFull ==> c.firstType == FirstFull)
  }

  /** The intervals fit the kind of updates. */
  predicate IntervalsFit(s: Settings) {
    && Or(s.updateInterval, 0) > 0
    && (UpdateMode(s) == FullAndIncremental <==> Or(s.fullUpdateInterval, 0) > 0)
  }

  /** The dump section says how to start, and asks for nothing the cache cannot do. */
  predicate DumpFits(s: Settings) {
    s.dump.Some? ==>
      && s.dump.value.mode.Some?
      && (s.dump.value.mode.value != Required ==> s.dump.value.maxAgeSet)
      && (UpdateMode(s) == OnlyFull ==> Or(s.dump.value.kind, FirstFull) == FirstFull)
      && (UpdateMode(s) != OnlyFull && s.dump.value.mode.value != Skip ==> s.dump.value.kind.Some?)
  }

  /** What is needed of the intervals and of the dump section, by what is said about update types. */
  lemma FitsByTypes(s: Settings)
    ensures s.updateTypes == Some(FullAndIncremental)
            || (s.updateTypes.None? && s.updateInterval.Some? && s.fullUpdateInterval.Some?) ==>
              (IntervalsFit(s) <==> Or(s.updateInterval, 0) > 0 && Or(s.fullUpdateInterval, 0) > 0)
    ensures s.updateTypes.Some? && s.updateTypes.value != FullAndIncremental ==>
              (IntervalsFit(s) <==> Or(s.updateInterval, 0) > 0 && Or(s.fullUpdateInterval, 0) == 0)
    ensures s.updateTypes.None? && s.fullUpdateInterval.None? ==>
              (IntervalsFit(s) <==> Or(s.updateInterval, 0) > 0)
    ensures s.updateInterval.None? ==> !IntervalsFit(s)
    ensures IntervalsFit(s) && s.dump.Some? ==>
              (DumpFits(s) <==>
               && s.dump.value.mode.Some?
               && (s.dump.value.mode.value != Required ==> s.dump.value.maxAgeSet)
               && if s.updateTypes == Some(OnlyFull) || (s.updateTypes.None? && s.fullUpdateInterval.None?)
                  then s.dump.value.kind in {None, Some(FirstFull)}
                  else s.dump.value.mode.value == Skip || s.dump.value.kind.Some?)
    ensures s.dump.None? ==> DumpFits(s)
  {
  }

  /** The constructor: fields first, then the checks, which also fill in a missing full interval. */
  method Construct(s: Settings) returns (r: Result<Config>)
    ensures r.Ok? <==> IntervalsFit(s) && DumpFits(s)
    ensures r.Ok? ==> ValidConfig(r.value) && r.value.allowed == UpdateMode(s)
    ensures r.Ok? && s.updateTypes.Some? ==> r.value.allowed == s.updateTypes.value
    ensures r.Ok? && s.updateTypes.None? ==>
              r.value.allowed == if s.fullUpdateInterval.Some? then FullAndIncremental else OnlyFull
    ensures r.Ok? ==> r.value.updateInterval == s.updateInterval.value
    ensures r.Ok? ==> r.value.fullUpdateInterval ==
                      if UpdateMode(s) == FullAndIncremental then s.fullUpdateInterval.value else s.updateInterval.value
    ensures r.Ok? && s.dump.None? ==> r.value.firstMode == Skip && r.value.firstType == FirstFull
    ensures r.Ok? && s.dump.Some? ==> r.value.firstMode == s.dump.value.mode.value
                                      && r.value.firstType == Or(s.dump.value.kind, FirstFull)
    ensures r.Ok? ==> r.value.updateJitter == Or(s.updateJitter, s.updateInterval.value / 10)
                      && r.value.fullUpdateJitter == Or(s.fullUpdateJitter, Or(s.fullUpdateInterval, 0) / 10)
    ensures r.Ok? ==> r.value.updatesEnabled == s.updatesEnabled
                      && r.value.allowFirstUpdateFailure == s.firstUpdateFailOk
                      && r.value.failedUpdatesBeforeExpiration == s.failedUpdatesBeforeExpiration
  {
    var updateInterval := Or(s.updateInterval, 0);
    var fullUpdateInterval := Or(s.fullUpdateInterval, 0);
    var c := Config(
      UpdateMode(s), s.firstUpdateFailOk, s.failedUpdatesBeforeExpiration,
      if s.dump.Some? then Or(s.dump.value.mode, Skip) else Skip,
      if s.dump.Some? then Or(s.dump.value.kind, FirstFull) else FirstFull,
      updateInterval, Or(s.updateJitter, DefaultJitter(updateInterval)),
      fullUpdateInterval, Or(s.fullUpdateJitter, DefaultJitter(fullUpdateInterval)),
      s.updatesEnabled);
    match c.allowed {
      case FullAndIncremental =>
        if c.updateInterval == 0 || c.fullUpdateInterval == 0 {
          return Error(BothIntervalsNeeded);
        }
      case _ =>
        if c.fullUpdateInterval != 0 {
          return Error(FullIntervalNotAllowed);
        }
        if c.updateInterval == 0 {
          return Error(IntervalNotSet);
        }
        c := c.(fullUpdateInterval := c.updateInterval);
    }
    if s.dump.Some? {
      if s.dump.value.mode.None? {
        return Error(FirstModeNotSet);
      }
      if c.firstMode != Required && !s.dump.value.maxAgeSet {
        return Error(DumpAgeNotSet);
      }
      if c.allowed == OnlyFull {
        if c.firstType != FirstFull {
          return Error(FirstTypeImpossible);
        }
      } else if c.firstMode != Skip {
        if s.dump.value.kind.None? {
          return Error(FirstTypeNotSet);
        }
      }
    }
    return Ok(c);
  }

  // ---- patches ------------------------------------------------------------

  /** The JSON of a patch; None where a number is missing. */
  datatype PatchJson = PatchJson(
    updateInterval: Option<int>,
    updateJitter: Option<int>,
    fullUpdateInterval: Option<int>,
    fullUpdateJitter: Option<int>,
    updatesEnabled: Option<bool>)

  datatype Patch = Patch(
    updateInterval: nat,
    updateJitter: nat,
    fullUpdateInterval: nat,
    fullUpdateJitter: nat,
    updatesEnabled: bool)

  predicate ValidPatch(p: Patch) {
    0 < p.updateInterval && p.updateJitter <= p.updateInterval
    && 0 < p.fullUpdateInterval && p.fullUpdateJitter <= p.fullUpdateInterval
  }

  predicate Readable(o: Option<int>) { o.Some? && o.value >= 0 }

  method ParseMs(o: Option<int>) returns (r: Result<nat>)
    ensures r.Ok? <==> Readable(o)
    ensures r.Ok? ==> r.value == o.value
  {
    if o.None? {
      return Error(NotANumber);
    }
    if o.value < 0 {
      return Error(NegativeDuration);
    }
    return Ok(o.value);
  }

  method ParsePatch(j: PatchJson) returns (r: Result<Patch>)
    ensures r.Ok? <==> Readable(j.updateInterval) && Readable(j.updateJitter) && Readable(j.fullUpdateInterval)
                       && Readable(j.fullUpdateJitter) && (j.updateInterval.value > 0 || j.fullUpdateInterval.value > 0)
    ensures r.Ok? ==> ValidPatch(r.value)
    ensures r.Ok? && j.updateInterval.value > 0 ==> r.value.updateInterval == j.updateInterval.value
    ensures r.Ok? && j.fullUpdateInterval.value > 0 ==> r.value.fullUpdateInterval == j.fullUpdateInterval.value
    ensures r.Ok? && (j.updateInterval.value == 0 || j.fullUpdateInterval.value == 0) ==>
              r.value.updateInterval == r.value.fullUpdateInterval
    ensures r.Ok? ==>
              r.value.updateJitter == j.updateJitter.value || r.value.updateJitter == r.value.updateInterval / 10
    ensures r.Ok? && j.updateJitter.value <= r.value.updateInterval ==> r.value.updateJitter == j.updateJitter.value
    ensures r.Ok? && j.fullUpdateJitter.value <= r.value.fullUpdateInterval ==>
              r.value.fullUpdateJitter == j.fullUpdateJitter.value
    ensures r.Ok? && j.fullUpdateJitter.value > r.value.fullUpdateInterval ==>
              r.value.fullUpdateJitter == r.value.fullUpdateInterval / 10
    ensures r.Ok? ==> r.value.updatesEnabled == Or(j.updatesEnabled, true)
  {
    var ui := ParseMs(j.updateInterval);
    var uj := ParseMs(j.updateJitter);
    var fi := ParseMs(j.fullUpdateInterval);
    var fj := ParseMs(j.fullUpdateJitter);
    if ui.Error? || uj.Error? || fi.Error? || fj.Error? {
      return Error(NotANumber);
    }
    var p := Patch(ui.value, uj.value, fi.value, fj.value, Or(j.updatesEnabled, true));
    if p.updateInterval == 0 && p.fullUpdateInterval == 0 {
      return Error(IntervalNotSet);
    } else if p.fullUpdateInterval == 0 {
      p := p.(fullUpdateInterval := p.updateInterval);
    } else if p.updateInterval == 0 {
      p := p.(updateInterval := p.fullUpdateInterval);
    }
    if p.updateJitter > p.updateInterval {
      p := p.(updateJitter := DefaultJitter(p.updateInterval));
    }
    if p.fullUpdateJitter > p.fullUpdateInterval {
      p := p.(fullUpdateJitter := DefaultJitter(p.fullUpdateInterval));
    }
    return Ok(p);
  }

  function MergeWith(c: Config, p: Patch): (m: Config)
    ensures m.allowed == c.allowed && m.firstType == c.firstType && m.firstMode == c.firstMode
    ensures m.failedUpdatesBeforeExpiration == c.failedUpdatesBeforeExpiration
    ensures m.allowFirstUpdateFailure == c.allowFirstUpdateFailure
    ensures Patch(m.updateInterval, m.updateJitter, m.fullUpdateInterval, m.fullUpdateJitter, m.updatesEnabled) == p
  {
    c.(updateInterval := p.updateInterval, updateJitter := p.updateJitter,
       fullUpdateInterval := p.fullUpdateInterval, fullUpdateJitter := p.fullUpdateJitter,
       updatesEnabled := p.updatesEnabled)
  }
}
