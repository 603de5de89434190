/**
  The alarm decision taken once a difference is available: above the
  threshold the alarm sounds (if enabled and not already sounding) and a log
  entry is requested (if logging is enabled); otherwise the alarm is paused
  and rewound.
 */
module Alarm {
  import opened Frames

  /** Mean per-pixel change above which motion is reported. */
  const Threshold: nat := 20

  /**
    The strict threshold test on the mean change `diff / Area`, stated on
    naturals: since `Area` is positive the two comparisons agree.
   */
  predicate Exceeds(diff: nat) {
    diff > Threshold * Area
  }

  /** The integer test agrees with the quotient test performed on the mean. */
  lemma ExceedsIsMeanAboveThreshold(diff: nat)
    ensures Exceeds(diff) <==> (diff as real) / (Area as real) > Threshold as real
  {
  }

  /** The two admin-panel toggles, read once per tick. */
  datatype Config = Config(alarmEnabled: bool, loggingEnabled: bool)

  /** Both toggles start switched on. */
  const DefaultConfig := Config(true, true)

  /**
    What the monitor knows of the alarm sound element: whether it is paused
    and its playback position. The monitor only ever resets the position to
    0, and the element's own advance during playback is not modelled, so the
    position is 0 in every state reachable from `Silent`.
   */
  datatype Audio = Audio(paused: bool, position: nat)

  /** Paused and rewound: the state the idle branch and a stop leave behind. */
  const Silent := Audio(true, 0)

  /**
    Side effects requested from the environment by one tick: start the alarm,
    pause and rewind it, append a log entry.
   */
  datatype Directives = Directives(play: bool, stop: bool, log: bool)

  const NoDirectives := Directives(false, false, false)

  /** The two-branch reaction to a difference. */
  function Respond(diff: nat, cfg: Config, audio: Audio): Directives {
    if Exceeds(diff) then
      Directives(cfg.alarmEnabled && audio.paused, false, cfg.loggingEnabled)
    else
      Directives(false, true, false)
  }

  /**
    The alarm element after the directives are carried out. A requested
    play is taken to succeed; a play the browser refuses is not modelled.
   */
  function Apply(audio: Audio, d: Directives): Audio {
    if d.stop then Silent
    else if d.play then audio.(paused := false)
    else audio
  }

  /**
    Once motion has started an enabled alarm, further motion does not start
    it again (provided the first play took effect, as `Apply` assumes).
   */
  lemma NoReplayWhilePlaying(d1: nat, d2: nat, cfg1: Config, cfg2: Config, audio: Audio)
    requires Exceeds(d1) && Exceeds(d2) && cfg1.alarmEnabled
    ensures !Respond(d2, cfg2, Apply(audio, Respond(d1, cfg1, audio))).play
  {
  }

  /**
    Differences with means 5, 25 and 3 in turn, both toggles on, alarm
    initially silent: idle, alarm, idle, with play and a single log on the
    middle tick and a stop on both idle ticks.
   */
  lemma IdleAlarmIdle()
    ensures
      var a1 := Apply(Silent, Respond(5 * Area, DefaultConfig, Silent));
      var d2 := Respond(25 * Area, DefaultConfig, a1);
      var a2 := Apply(a1, d2);
      && Respond(5 * Area, DefaultConfig, Silent) == Directives(false, true, false)
      && d2 == Directives(true, false, true)
      && Respond(3 * Area, DefaultConfig, a2) == Directives(false, true, false)
      && Apply(a2, Respond(3 * Area, DefaultConfig, a2)) == Silent
  {
  }
}
