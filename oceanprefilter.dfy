/** The ocean-prefilter vision service (oceanprefilter/oceanprefilter.go):
    configuration checks, the trigger countdown of the background loop and
    the classification it reports. */
module OceanPrefilter {
  import opened Wrappers
  import opened Geometry
  import opened Histograms
  import opened ChangeDetection

  /** Poll rate used when max_frequency_hz is 0. */
  const DefaultMaxFrequency: real := 10.0
  /** KS threshold used when threshold is 0. */
  const DefaultThreshold: real := 0.25
  /** The one class the service reports. */
  const TriggerClassName: string := "TRIGGER"
  /** Frames the flag stays up after the last frame with evidence. */
  const TriggerCountdown: int := 4

  // ---------------------------------------------------------------------
  // Configuration

  /** The service's attributes; a nil chosen_labels map is None. */
  datatype Config = Config(
    cameraName: string,
    detectorName: string,
    chosenLabels: Option<map<string, real>>,
    maxFrequency: real,
    threshold: real,
    debug: bool,
    excludedRegion: seq<int>,
    triggerOnMotion: bool)

  datatype ConfigError =
    | MissingCameraName(path: string)
    | NegativeFrequency
    | ThresholdOutOfRange
    | BadExcludedRegion(length: nat)

  /** Config.Validate: the camera is required; the detector is an
      optional second dependency. */
  function Validate(cfg: Config, path: string): (r: Result<seq<string>, ConfigError>)
    ensures r.Err? <==> cfg.cameraName == ""
    ensures r.Err? ==> r.error == MissingCameraName(path)
    ensures r.Ok? ==> 1 <= |r.value| <= 2 && r.value[0] == cfg.cameraName
    ensures r.Ok? ==> (|r.value| == 2 <==> cfg.detectorName != "")
    ensures r.Ok? && |r.value| == 2 ==> r.value[1] == cfg.detectorName
  {
    if cfg.cameraName == "" then Err(MissingCameraName(path))
    else if cfg.detectorName == "" then Ok([cfg.cameraName])
    else Ok([cfg.cameraName, cfg.detectorName])
  }

  /** The settings handed to the background loop. */
  datatype RunConfig = RunConfig(
    camName: string,
    hasDetector: bool,
    chosenLabels: Option<map<string, real>>,
    frequency: real,
    threshold: real,
    excludedZone: Option<Rect>,
    motionTrigger: bool,
    debug: bool)

  /** The checks and defaults of Reconfigure, in the order Go applies
      them. */
  function LoadRunConfig(cfg: Config): (r: Result<RunConfig, ConfigError>)
    ensures r.Err? <==>
      cfg.maxFrequency < 0.0 || cfg.threshold > 1.0 || cfg.threshold < 0.0
      || (|cfg.excludedRegion| != 0 && |cfg.excludedRegion| != 4)
    ensures cfg.maxFrequency < 0.0 ==> r == Err(NegativeFrequency)
    ensures cfg.maxFrequency >= 0.0 && (cfg.threshold > 1.0 || cfg.threshold < 0.0) ==> r == Err(ThresholdOutOfRange)
    ensures r.Err? && r.error.BadExcludedRegion? ==> r.error.length == |cfg.excludedRegion|
    ensures r.Ok? ==> 0.0 < r.value.frequency && 0.0 < r.value.threshold <= 1.0
  {
    if cfg.maxFrequency < 0.0 then Err(NegativeFrequency)
    else
      var frequency := if cfg.maxFrequency == 0.0 then DefaultMaxFrequency else cfg.maxFrequency;
      if cfg.threshold > 1.0 || cfg.threshold < 0.0 then Err(ThresholdOutOfRange)
      else
        var threshold := if cfg.threshold == 0.0 then DefaultThreshold else cfg.threshold;
        var er := cfg.excludedRegion;
        if |er| != 0 && |er| != 4 then Err(BadExcludedRegion(|er|))
        else
          var zone := if |er| == 4 then Some(Rect(Point(er[0], er[1]), Point(er[2], er[3]))) else None;
          Ok(RunConfig(cfg.cameraName, cfg.detectorName != "", cfg.chosenLabels,
                       frequency, threshold, zone, cfg.triggerOnMotion, cfg.debug))
  }

  /** Zero frequency and threshold select the defaults, other accepted
      values are kept, and four region numbers become the corners
      (er0, er1)-(er2, er3) as given, without reordering. */
  lemma RunConfigDefaults(cfg: Config)
    requires LoadRunConfig(cfg).Ok?
    ensures var rc := LoadRunConfig(cfg).value;
      && rc.frequency == (if cfg.maxFrequency == 0.0 then DefaultMaxFrequency else cfg.maxFrequency)
      && rc.threshold == (if cfg.threshold == 0.0 then DefaultThreshold else cfg.threshold)
      && (|cfg.excludedRegion| == 0 <==> rc.excludedZone.None?)
      && (rc.excludedZone.Some? ==>
            rc.excludedZone.value == Rect(Point(cfg.excludedRegion[0], cfg.excludedRegion[1]),
                                          Point(cfg.excludedRegion[2], cfg.excludedRegion[3])))
      && rc.camName == cfg.cameraName && rc.motionTrigger == cfg.triggerOnMotion
  {
  }

  // ---------------------------------------------------------------------
  // Trigger countdown

  /** The loop's countdown and the published flag. */
  datatype TriggerState = TriggerState(count: int, flag: bool)

  /** One cycle of the countdown: evidence re-arms it, otherwise a positive
      count keeps the flag up while it runs down. */
  function NextTrigger(count: int, evidence: bool): (s: TriggerState)
    ensures 0 <= count <= TriggerCountdown ==> 0 <= s.count <= TriggerCountdown
    ensures s.flag <==> evidence || count > 0
    ensures s.count > 0 ==> s.flag
    ensures evidence ==> s.count == TriggerCountdown
    ensures !evidence ==> s.count == if count > 0 then count - 1 else count
  {
    if evidence then TriggerState(TriggerCountdown, true)
    else if count > 0 then TriggerState(count - 1, true)
    else TriggerState(count, false)
  }

  /** The countdown after a sequence of cycles, starting as run starts:
      count 0 and the flag down. The count never leaves [0, 4], a positive
      count keeps the flag up, and a last cycle with evidence leaves the
      countdown fully re-armed. */
  function Replay(evidence: seq<bool>): (s: TriggerState)
    ensures 0 <= s.count <= TriggerCountdown
    ensures s.count > 0 ==> s.flag
    ensures |evidence| == 0 ==> s == TriggerState(0, false)
    ensures |evidence| > 0 && evidence[|evidence| - 1] ==> s == TriggerState(TriggerCountdown, true)
  {
    if |evidence| == 0 then TriggerState(0, false)
    else NextTrigger(Replay(evidence[..|evidence| - 1]).count, evidence[|evidence| - 1])
  }

  /** The flag published after each cycle. */
  function Published(evidence: seq<bool>): (flags: seq<bool>)
    ensures |flags| == |evidence|
  {
    if |evidence| == 0 then []
    else Published(evidence[..|evidence| - 1]) + [Replay(evidence).flag]
  }

  /** Some cycle among the last k had evidence. */
  predicate Recent(evidence: seq<bool>, k: int) {
    exists j :: 0 <= j < |evidence| && |evidence| - k <= j && evidence[j]
  }

  /** One frame with evidence followed by five without publishes the flag
      for that frame and the four after it, then drops it. */
  lemma CountdownExample()
    ensures Published([true, false, false, false, false, false]) == [true, true, true, true, true, false]
  {
    var p1, p2, p3 := [true], [true, false], [true, false, false];
    var p4, p5, p6 := p3 + [false], p3 + [false, false], p3 + [false, false, false];
    assert p1[..0] == [] && p2[..1] == p1 && p3[..2] == p2;
    assert p4[..3] == p3 && p5[..4] == p4 && p6[..5] == p5;
    assert Replay(p1) == TriggerState(4, true);
    assert Replay(p2) == TriggerState(3, true);
    assert Replay(p3) == TriggerState(2, true);
    assert Replay(p4) == TriggerState(1, true);
    assert Replay(p5) == TriggerState(0, true);
    assert Replay(p6) == TriggerState(0, false);
    assert Published(p3) == [true, true, true];
    assert Published(p4) == [true, true, true, true];
    assert Published(p5) == [true, true, true, true, true];
    assert Published(p6) == [true, true, true, true, true, false];
    assert p6 == [true, false, false, false, false, false];
  }

  /** The count exceeds 4 - k (1 <= k <= 4) exactly when one of the last k
      cycles had evidence: evidence sets it to 4 and every cycle without
      evidence takes one off. */
  lemma {:induction false} CountTracksEvidence(evidence: seq<bool>)
    ensures forall k :: 1 <= k <= TriggerCountdown ==>
      (Replay(evidence).count > TriggerCountdown - k <==> Recent(evidence, k))
    decreases |evidence|
  {
    if |evidence| > 0 {
      var n := |evidence| - 1;
      var init := evidence[..n];
      CountTracksEvidence(init);
      forall k | 1 <= k <= TriggerCountdown
        ensures Replay(evidence).count > TriggerCountdown - k <==> Recent(evidence, k)
      {
        if evidence[n] {
          assert Recent(evidence, k);
        } else {
          RecentShift(evidence, k);
          if k == 1 {
            assert !Recent(init, 0);
          }
        }
      }
    }
  }

  /** Without evidence in the newest cycle, the last k cycles had evidence
      exactly when the k - 1 cycles before it had. */
  lemma RecentShift(evidence: seq<bool>, k: int)
    requires |evidence| > 0 && !evidence[|evidence| - 1] && k >= 1
    ensures Recent(evidence, k) <==> Recent(evidence[..|evidence| - 1], k - 1)
  {
    var init := evidence[..|evidence| - 1];
    if Recent(evidence, k) {
      var j :| 0 <= j < |evidence| && |evidence| - k <= j && evidence[j];
      assert init[j] == evidence[j];
    }
    if Recent(init, k - 1) {
      var j :| 0 <= j < |init| && |init| - (k - 1) <= j && init[j];
      assert evidence[j] == init[j];
    }
  }

  /** The published flag is up exactly when one of the last five cycles
      (this one and the four before it) had evidence. */
  lemma FlagTracksEvidence(evidence: seq<bool>)
    ensures Replay(evidence).flag <==> Recent(evidence, TriggerCountdown + 1)
  {
    if |evidence| > 0 {
      var n := |evidence| - 1;
      CountTracksEvidence(evidence[..n]);
      if !evidence[n] {
        RecentShift(evidence, TriggerCountdown + 1);
      }
    }
  }

  /** What the background loop counts as evidence for one frame: the
      filter's trigger, or, when the filter failed and trigger_on_motion is
      set, the failure itself. A failed filter never reports a trigger. */
  function Evidence(out: FilterOutcome, motionTrigger: bool): (e: bool)
    requires out.err.Some? ==> !out.triggered
    ensures out.err.Some? ==> (e <==> motionTrigger)
    ensures out.err.None? ==> (e <==> out.triggered)
  {
    out.triggered || (out.err.Some? && motionTrigger)
  }

  // ---------------------------------------------------------------------
  // Query results

  /** A classification: a class name and a confidence. */
  datatype Classification = Classification(className: string, score: real)

  datatype QueryError =
    | CameraMismatch(given: string, configured: string)
    | Configuring
    | LostConnection

  /** The result list for a flag: one TRIGGER with confidence 1.0, or
      nothing. */
  function Report(flag: bool): (cls: seq<Classification>)
    ensures flag ==> cls == [Classification(TriggerClassName, 1.0)]
    ensures !flag ==> cls == []
  {
    if flag then [Classification(TriggerClassName, 1.0)] else []
  }

  // ---------------------------------------------------------------------
  // The service

  /** The prefilter service. The fields after camName stand for state Go
      keeps elsewhere: `cancelled` is whether the internal context is done,
      `loop` the settings of the running background loop (None when none
      runs) and `triggerCount` and `baseline` that loop's local variables.
      `tileHeight` and `tileWidth` are the tile size the loop splits the
      sea into. */
  class Prefilter {
    var triggerFlag: bool
    var camName: string
    var cancelled: bool
    var loop: Option<RunConfig>
    var triggerCount: int
    var baseline: seq<Histogram>
    const tileHeight: int
    const tileWidth: int

    /** The countdown is in range, a running countdown keeps the flag up,
        and the baseline holds only 32-bucket gray histograms. */
    ghost predicate Valid()
      reads this
    {
      && 0 <= triggerCount <= TriggerCountdown
      && (triggerCount > 0 ==> triggerFlag)
      && (forall h :: h in baseline ==> |h.buckets| == GrayBuckets)
    }

    /** The service as newPrefilter allocates it, before Reconfigure. */
    constructor (tileHeight: int, tileWidth: int)
      ensures Valid()
      ensures !triggerFlag && camName == "" && !cancelled && loop.None?
      ensures this.tileHeight == tileHeight && this.tileWidth == tileWidth
    {
      this.tileHeight := tileHeight;
      this.tileWidth := tileWidth;
      triggerFlag := false;
      camName := "";
      cancelled := false;
      loop := None;
      triggerCount := 0;
      baseline := [];
    }

    /** Reconfigure: stops the running loop, lowers the flag, opens a
        fresh internal context, then checks the configuration; on success
        a new loop starts with count 0 and no baseline. The camera name is
        stored after the frequency and threshold checks, before the region
        check. */
    method Reconfigure(cfg: Config) returns (err: Option<ConfigError>)
      modifies this
      ensures Valid()
      ensures !triggerFlag && !cancelled && triggerCount == 0 && baseline == []
      ensures LoadRunConfig(cfg).Err? ==> err == Some(LoadRunConfig(cfg).error) && loop.None?
      ensures LoadRunConfig(cfg).Ok? ==> err.None? && loop == Some(LoadRunConfig(cfg).value)
      ensures camName ==
        if LoadRunConfig(cfg).Err? && !LoadRunConfig(cfg).error.BadExcludedRegion? then old(camName) else cfg.cameraName
    {
      if loop.Some? {
        cancelled := true;
        loop := None;
      }
      triggerFlag := false;
      cancelled := false;
      loop := None;
      triggerCount := 0;
      baseline := [];
      if cfg.maxFrequency < 0.0 {
        return Some(NegativeFrequency);
      }
      var frequency := cfg.maxFrequency;
      if frequency == 0.0 {
        frequency := DefaultMaxFrequency;
      }
      if cfg.threshold > 1.0 || cfg.threshold < 0.0 {
        return Some(ThresholdOutOfRange);
      }
      var threshold := cfg.threshold;
      if threshold == 0.0 {
        threshold := DefaultThreshold;
      }
      camName := cfg.cameraName;
      var zone: Option<Rect> := None;
      if |cfg.excludedRegion| != 0 {
        if |cfg.excludedRegion| != 4 {
          return Some(BadExcludedRegion(|cfg.excludedRegion|));
        }
        var er := cfg.excludedRegion;
        zone := Some(Rect(Point(er[0], er[1]), Point(er[2], er[3])));
      }
      loop := Some(RunConfig(cfg.cameraName, cfg.detectorName != "", cfg.chosenLabels,
                             frequency, threshold, zone, cfg.triggerOnMotion, cfg.debug));
      err := None;
    }

    /** The countdown of one cycle of run. */
    method Step(isTriggered: bool)
      modifies this
      requires Valid()
      ensures Valid()
      ensures TriggerState(triggerCount, triggerFlag) == NextTrigger(old(triggerCount), isTriggered)
      ensures camName == old(camName) && cancelled == old(cancelled) && loop == old(loop) && baseline == old(baseline)
    {
      if isTriggered {
        triggerCount := TriggerCountdown;
        triggerFlag := true;
      } else if triggerCount > 0 {
        triggerFlag := true;
        triggerCount := triggerCount - 1;
      } else {
        triggerFlag := false;
      }
    }

    /** One cycle of run for the next item of the camera stream (None when
        the stream returned an error). A stream error lowers the flag and
        ends run, which the service starts again with count 0 and no
        baseline. Otherwise the frame is compared with the baseline, the
        countdown takes one step on the evidence, and the filter's
        histograms, which are empty after an error, become the baseline. */
    method Cycle(item: Option<Frame>)
      modifies this
      requires Valid() && loop.Some?
      requires item.Some? ==> WellFormed(item.value)
      ensures Valid()
      ensures camName == old(camName) && cancelled == old(cancelled) && loop == old(loop)
      ensures item.None? ==> !triggerFlag && triggerCount == 0 && baseline == []
      ensures item.Some? ==>
        var out := ChangeFilter(old(baseline), item.value, loop.value.excludedZone, loop.value.threshold, tileHeight, tileWidth);
        && TriggerState(triggerCount, triggerFlag) == NextTrigger(old(triggerCount), Evidence(out, loop.value.motionTrigger))
        && baseline == out.hists
    {
      var rc := loop.value;
      if item.None? {
        triggerFlag := false;
        triggerCount := 0;
        baseline := [];
        return;
      }
      var isTriggered, newHists, err := HistogramChangeFilter(baseline, item.value, rc.excludedZone, rc.threshold, tileHeight, tileWidth);
      if err.Some? {
        if rc.motionTrigger {
          isTriggered := true;
        }
      }
      BaselineIsGray(baseline, item.value, rc.excludedZone, rc.threshold, tileHeight, tileWidth);
      Step(isTriggered);
      baseline := newHists;
    }

    /** Classifications: the caller's context being done means the module
        may be configuring, the internal context being done means the loop
        is gone; when both are done Go's select picks either, which
        `pickCaller` stands for. Otherwise the report for the flag. */
    function Classifications(callerDone: bool, pickCaller: bool): (r: Result<seq<Classification>, QueryError>)
      reads this
      ensures r.Ok? <==> !callerDone && !cancelled
      ensures callerDone && !cancelled ==> r == Err(Configuring)
      ensures cancelled && !callerDone ==> r == Err(LostConnection)
      ensures r.Err? ==> r.error == Configuring || r.error == LostConnection
      ensures r.Ok? ==> r.value == Report(triggerFlag)
    {
      if callerDone && (!cancelled || pickCaller) then Err(Configuring)
      else if cancelled then Err(LostConnection)
      else Ok(Report(triggerFlag))
    }

    /** ClassificationsFromCamera: a camera other than the configured one
        is refused first, then as Classifications. */
    function ClassificationsFromCamera(cameraName: string, callerDone: bool, pickCaller: bool): (r: Result<seq<Classification>, QueryError>)
      reads this
      ensures cameraName != camName ==> r == Err(CameraMismatch(cameraName, camName))
      ensures cameraName == camName ==> r == Classifications(callerDone, pickCaller)
      ensures r.Ok? ==> |r.value| <= 1 && (|r.value| == 1 <==> triggerFlag)
    {
      if cameraName != camName then Err(CameraMismatch(cameraName, camName))
      else Classifications(callerDone, pickCaller)
    }

    /** Close: cancels the internal context and waits for the loop to
        stop. */
    method Close()
      modifies this
      requires Valid()
      ensures Valid()
      ensures cancelled && loop.None?
      ensures triggerFlag == old(triggerFlag) && camName == old(camName)
      ensures triggerCount == old(triggerCount) && baseline == old(baseline)
    {
      cancelled := true;
      loop := None;
    }
  }

  /** newPrefilter: a service with the flag down, then Reconfigure; a
      configuration error discards the service. */
  method NewPrefilter(cfg: Config, tileHeight: int, tileWidth: int) returns (r: Result<Prefilter, ConfigError>)
    ensures LoadRunConfig(cfg).Err? <==> r.Err?
    ensures r.Err? ==> r.error == LoadRunConfig(cfg).error
    ensures r.Ok? ==> fresh(r.value) && r.value.Valid() && !r.value.triggerFlag
    ensures r.Ok? ==> r.value.loop == Some(LoadRunConfig(cfg).value) && r.value.camName == cfg.cameraName
  {
    var pf := new Prefilter(tileHeight, tileWidth);
    var err := pf.Reconfigure(cfg);
    if err.Some? {
      return Err(err.value);
    }
    return Ok(pf);
  }
}
