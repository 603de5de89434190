/**
  The monitoring loop's per-tick step (processFrame), the log append
  (saveLog) and the start/stop switches, as pure functions over an immutable
  monitor state. The caller carries out the returned directives and, when
  asked to, schedules the next tick.
 */
module Monitor {
  import opened Wrappers
  import opened Frames
  import opened Motion
  import opened Alarm

  /** One recorded detection: the locale-formatted time and the PNG data URL. */
  datatype LogEntry = LogEntry(timestamp: string, image: string)

  /**
    Everything a tick reads or writes besides its inputs: the monitoring
    flag, the previous-frame slot, the log and the alarm element.
   */
  datatype Monitor = Monitor(
    monitoring: bool,
    previous: Option<Buffer>,
    logs: seq<LogEntry>,
    audio: Audio)

  /** The retained frame, if any, is a full canvas frame. */
  predicate Valid(s: Monitor) {
    s.previous.Some? ==> IsFrame(s.previous.value)
  }

  /** Page load: not monitoring, no baseline, no logs, alarm paused at 0. */
  const Initial := Monitor(false, None, [], Silent)

  /** The result of one tick: the next state, the directives, and whether the loop continues. */
  datatype Step = Step(state: Monitor, directives: Directives, reschedule: bool)

  /** saveLog: the new entry goes at the end; nothing before it moves or changes. */
  function SaveLog(logs: seq<LogEntry>, timestamp: string, image: string): (r: seq<LogEntry>)
    ensures |r| == |logs| + 1
    ensures r[..|logs|] == logs
    ensures r[|logs|] == LogEntry(timestamp, image)
  {
    logs + [LogEntry(timestamp, image)]
  }

  /**
    processFrame: `cur` is the frame just drawn; `timestamp` and `image` are
    what saveLog would capture if this tick logs.
   */
  function Tick(s: Monitor, cur: Buffer, cfg: Config, timestamp: string, image: string): (r: Step)
    requires Valid(s) && IsFrame(cur)
    ensures Valid(r.state)
    ensures r.reschedule == s.monitoring == r.state.monitoring
    ensures s.monitoring ==> r.state.previous == Some(cur)
    ensures r.state.logs == s.logs || r.state.logs == SaveLog(s.logs, timestamp, image)
  {
    if !s.monitoring then
      Step(s, NoDirectives, false)
    else
      match s.previous
      case None =>
        Step(s.(previous := Some(cur)), NoDirectives, true)
      case Some(p) =>
        var d := Respond(Diff(p, cur), cfg, s.audio);
        var logs := if d.log then SaveLog(s.logs, timestamp, image) else s.logs;
        Step(Monitor(true, Some(cur), logs, Apply(s.audio, d)), d, true)
  }

  /** stopMonitoring: the loop stops and the alarm is paused and rewound. */
  function Stop(s: Monitor): Monitor {
    s.(monitoring := false, audio := Silent)
  }

  /** The state change of startMonitoring once the camera stream is attached. */
  function Start(s: Monitor): Monitor {
    s.(monitoring := true)
  }

  /** One tick's inputs: the drawn frame, the toggles, and what saveLog would capture. */
  datatype Input = Input(frame: Buffer, cfg: Config, timestamp: string, image: string)

  predicate AllFrames(ins: seq<Input>) {
    forall i :: 0 <= i < |ins| ==> IsFrame(ins[i].frame)
  }

  /**
    A run of consecutive ticks. The log only ever grows at its end, by at
    most one entry per tick, and a stopped monitor stays exactly as it was.
   */
  function Run(s: Monitor, ins: seq<Input>): (r: Monitor)
    requires Valid(s) && AllFrames(ins)
    ensures Valid(r)
    ensures r.monitoring == s.monitoring
    ensures |s.logs| <= |r.logs| <= |s.logs| + |ins|
    ensures r.logs[..|s.logs|] == s.logs
    ensures !s.monitoring ==> r == s
    ensures s.monitoring && |ins| > 0 ==> r.previous == Some(ins[|ins| - 1].frame)
    decreases |ins|
  {
    if |ins| == 0 then s
    else
      var i := ins[0];
      Run(Tick(s, i.frame, i.cfg, i.timestamp, i.image).state, ins[1..])
  }

  /** A tick of a stopped monitor changes nothing, requests nothing and ends the loop. */
  lemma TickHalted(s: Monitor, cur: Buffer, cfg: Config, timestamp: string, image: string)
    requires Valid(s) && IsFrame(cur) && !s.monitoring
    ensures Tick(s, cur, cfg, timestamp, image) == Step(s, NoDirectives, false)
  {
  }

  /**
    The first processed frame only becomes the baseline: no play, stop or
    log, and nothing but the previous-frame slot changes.
   */
  lemma TickBaseline(s: Monitor, cur: Buffer, cfg: Config, timestamp: string, image: string)
    requires Valid(s) && IsFrame(cur) && s.monitoring && s.previous.None?
    ensures Tick(s, cur, cfg, timestamp, image) == Step(s.(previous := Some(cur)), NoDirectives, true)
  {
  }

  /** The outcome of the idle branch: pause and rewind, no log. */
  predicate IsIdle(s: Monitor, r: Step) {
    && r.directives == Directives(false, true, false)
    && r.state.logs == s.logs
    && r.state.audio == Silent
  }

  /** A frame identical to the baseline takes the idle branch. */
  lemma TickIdenticalIsIdle(s: Monitor, cur: Buffer, cfg: Config, timestamp: string, image: string)
    requires Valid(s) && IsFrame(cur) && s.monitoring && s.previous == Some(cur)
    ensures IsIdle(s, Tick(s, cur, cfg, timestamp, image))
  {
    DiffSelf(cur);
  }

  /**
    The threshold is strict: a difference of exactly Threshold * Area (a mean
    change of exactly 20) is idle; anything above it takes the alarm branch,
    which never stops the alarm and logs exactly when logging is enabled.
   */
  lemma TickStrictThreshold(s: Monitor, cur: Buffer, cfg: Config, timestamp: string, image: string)
    requires Valid(s) && IsFrame(cur) && s.monitoring && s.previous.Some?
    ensures Diff(s.previous.value, cur) == Threshold * Area ==> IsIdle(s, Tick(s, cur, cfg, timestamp, image))
    ensures Diff(s.previous.value, cur) <= Threshold * Area <==> IsIdle(s, Tick(s, cur, cfg, timestamp, image))
    ensures Diff(s.previous.value, cur) > Threshold * Area ==>
      var d := Tick(s, cur, cfg, timestamp, image).directives;
      !d.stop && d.log == cfg.loggingEnabled
  {
  }

  /** Play is requested exactly on a motion tick with the alarm enabled and paused. */
  lemma TickPlay(s: Monitor, cur: Buffer, cfg: Config, timestamp: string, image: string)
    requires Valid(s) && IsFrame(cur)
    ensures Tick(s, cur, cfg, timestamp, image).directives.play <==>
      && s.monitoring && s.previous.Some?
      && Exceeds(Diff(s.previous.value, cur))
      && cfg.alarmEnabled && s.audio.paused
  {
  }

  /**
    Two motion ticks in a row with the alarm enabled on the first: the
    second does not issue play again, because the alarm is already sounding
    (provided the first play took effect, as `Apply` assumes).
   */
  lemma TickNoReplay(s: Monitor, c1: Buffer, c2: Buffer, cfg1: Config, cfg2: Config,
                     t1: string, i1: string, t2: string, i2: string)
    requires Valid(s) && IsFrame(c1) && IsFrame(c2) && s.monitoring && s.previous.Some?
    requires Exceeds(Diff(s.previous.value, c1)) && cfg1.alarmEnabled
    requires Exceeds(Diff(c1, c2))
    ensures !Tick(Tick(s, c1, cfg1, t1, i1).state, c2, cfg2, t2, i2).directives.play
  {
  }

  /**
    Logging is level-triggered: every motion tick with logging enabled
    appends exactly one entry {timestamp, image} at the end; every other
    tick leaves the log as it was.
   */
  lemma TickLog(s: Monitor, cur: Buffer, cfg: Config, timestamp: string, image: string)
    requires Valid(s) && IsFrame(cur)
    ensures Tick(s, cur, cfg, timestamp, image).directives.log <==>
      && s.monitoring && s.previous.Some?
      && Exceeds(Diff(s.previous.value, cur))
      && cfg.loggingEnabled
    ensures Tick(s, cur, cfg, timestamp, image).state.logs ==
      if Tick(s, cur, cfg, timestamp, image).directives.log
      then s.logs + [LogEntry(timestamp, image)]
      else s.logs
  {
  }

  /**
    Alpha samples are never read: replacing the alpha samples of the
    baseline or the current frame leaves the directives, the log and the
    alarm exactly as they were.
   */
  lemma TickIgnoresAlpha(s: Monitor, p': Buffer, cur: Buffer, cur': Buffer,
                         cfg: Config, timestamp: string, image: string)
    requires Valid(s) && IsFrame(cur)
    requires s.previous.Some? ==> SameColours(s.previous.value, p')
    requires SameColours(cur, cur')
    ensures
      var s' := if s.previous.Some? then s.(previous := Some(p')) else s;
      IsFrame(cur') && Valid(s')
    ensures
      var s' := if s.previous.Some? then s.(previous := Some(p')) else s;
      var r := Tick(s, cur, cfg, timestamp, image);
      var r' := Tick(s', cur', cfg, timestamp, image);
      r.directives == r'.directives && r.state.logs == r'.state.logs &&
      r.state.audio == r'.state.audio && r.reschedule == r'.reschedule
  {
    if s.monitoring && s.previous.Some? {
      DiffIgnoresAlpha(s.previous.value, cur, p', cur');
    }
  }

  /**
    From page load, starting the monitor and processing one frame only
    stores that frame as the baseline: no directive, and the log stays empty.
   */
  lemma FirstTickAfterLoad(cur: Buffer, cfg: Config, timestamp: string, image: string)
    requires IsFrame(cur)
    ensures Valid(Initial)
    ensures
      var r := Tick(Start(Initial), cur, cfg, timestamp, image);
      && r.directives == NoDirectives && r.reschedule
      && r.state.previous == Some(cur) && r.state.logs == []
      && r.state.audio == Silent
  {
  }

  /**
    After stopMonitoring the alarm is paused at 0, the loop ends on its next
    tick, and that tick touches neither the baseline nor the log.
   */
  lemma StopThenTick(s: Monitor, cur: Buffer, cfg: Config, timestamp: string, image: string)
    requires Valid(s) && IsFrame(cur)
    ensures !Stop(s).monitoring && Stop(s).audio == Silent
    ensures Stop(s).previous == s.previous && Stop(s).logs == s.logs
    ensures Tick(Stop(s), cur, cfg, timestamp, image) == Step(Stop(s), NoDirectives, false)
  {
  }

  /**
    stopMonitoring keeps the previous frame, so the first tick after a
    restart is scored against the last frame seen before the stop rather
    than becoming a new baseline.
   */
  lemma RestartScoresAgainstOldFrame(s: Monitor, cur: Buffer, cfg: Config, timestamp: string, image: string)
    requires Valid(s) && IsFrame(cur) && s.previous.Some?
    ensures Tick(Start(Stop(s)), cur, cfg, timestamp, image).directives ==
      Respond(Diff(s.previous.value, cur), cfg, Silent)
  {
  }
}
