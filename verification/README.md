# Camera motion alarm: detection and alarm step

This project models the core of a browser-based motion alarm (`script.js`; line citations below use `2.js`). A monitoring loop runs once per display refresh. On each tick it draws the camera image onto a fixed 640×480 canvas and reads the RGBA samples back. It then compares them with the frame from the previous tick. The comparison adds the absolute change of the R, G and B samples of every pixel; alpha is skipped. The total is divided by the canvas area, and the result is compared with a threshold of 20:

- **Alarm branch** (mean change above 20): the alarm sound is started if alarms are enabled and the sound is paused. If logging is enabled, one log entry `{timestamp, image}` is appended on every such tick.
- **Idle branch**: the alarm sound is paused and rewound to 0.

The first processed frame only becomes the baseline. A stopped monitor ignores ticks. `stopMonitoring` pauses and rewinds the alarm.

Modules:

- `Frames` (`frames.dfy`) holds the canvas constants (640, 480, area, four samples per pixel) and the 8-bit sample type.
- `Motion` (`motion.dfy`) holds the difference sum. `Diff` is the pixel-stride sum and `ComputeDiff` is the loop. `SampleSum` is an independent sample-by-sample reference that skips alpha samples.
- `Alarm` (`alarm.dfy`) holds the strict threshold test and the admin-panel toggles. It also holds the alarm element's paused flag and position, the directives a tick issues, and the two-branch reaction `Respond`.
- `Monitor` (`monitor.dfy`) holds the monitor state and `SaveLog`. It also holds `Tick` (processFrame), `Stop` (stopMonitoring), `Start` (the state change of startMonitoring) and `Run` (consecutive ticks).

Every step is a pure function. The returned state already holds the appended log entry and the alarm's intended paused flag and position. The caller performs only the outside effects the directives name: starting or pausing and rewinding the sound, adding the log `div`, and calling the notification stubs. It also schedules the next tick when told to.

The source divides in floating point: `diff / (640*480) > 20`. The model instead tests `diff > 20 * 640 * 480` on naturals. `Alarm.ExceedsIsMeanAboveThreshold` proves that the integer test agrees with the exact quotient. The float quotient agrees as well: `diff` is an integer of at most 765 × 307200 (`Motion.DiffBound`), so it is exactly representable. And the smallest quotient above 20, 6144001 / 307200, is far above the rounding error near 20.

`startZone` stores the drawn rectangle in `zone` (2.js:66), but `processFrame` never reads it, so detection always covers the whole frame. The model has no zone.

## Model

| member | source | states |
|---|---|---|
| Motion.ComputeDiff | 2.js:81-86 | the stride-4 loop returns the pixel-stride sum of R, G, B absolute changes, which equals the sample-by-sample sum with alpha excluded |
| Motion.DiffIsSampleSum | 2.js:82-86 | walking four samples at a time and reading offsets 0, 1, 2 adds exactly every non-alpha sample's absolute change |
| Motion.DiffZeroIff | 2.js:81-86 | the difference is zero if and only if the two frames agree on every colour sample |
| Motion.DiffSelf | 2.js:81-86 | identical buffers differ by zero |
| Motion.DiffMonotone | 2.js:82-86 | if no colour sample's absolute change shrinks, the difference does not shrink |
| Motion.DiffChannelUpdate | 2.js:82-86 | changing one colour sample of the current frame moves the difference by exactly the change in that sample's absolute difference, so a grown channel difference never lowers the total |
| Motion.DiffIgnoresAlpha | 2.js:82-86 | frames that differ only in alpha samples give the same difference |
| Motion.DiffBound | 2.js:82-86 | the difference is at most 765 per pixel |
| Alarm.ExceedsIsMeanAboveThreshold | 2.js:88-89 | the integer test `diff > 20 * Area` holds exactly when the mean `diff / Area` exceeds 20 |
| Alarm.NoReplayWhilePlaying | 2.js:89-90 | after motion has started an enabled alarm, further motion does not request play again |
| Alarm.IdleAlarmIdle | 2.js:89-97 | mean changes 5, 25, 3 give idle, alarm, idle: a stop on both idle ticks, and play and exactly one log on the alarm tick |
| Monitor.SaveLog | 2.js:103-112 | the log grows by exactly one entry `{timestamp, image}` at its end; earlier entries are unchanged |
| Monitor.Tick | 2.js:75-101 | a tick keeps the retained frame well-formed; it reschedules exactly when monitoring; a processed tick ends with the current frame as the previous frame; the log is either unchanged or has one entry appended |
| Monitor.Run | 2.js:75-100 | over any run of ticks the earlier log is a prefix of the later one, it grows by at most one entry per tick, a stopped monitor stays unchanged, and a running monitor ends holding the last tick's frame as its previous frame |
| Monitor.TickHalted | 2.js:76 | with monitoring off a tick changes no state, issues no directive and does not reschedule |
| Monitor.TickBaseline | 2.js:80-99 | with no previous frame a tick issues no play, stop or log and only stores the current frame |
| Monitor.TickIdenticalIsIdle | 2.js:81-96 | a frame identical to the baseline takes the idle branch: stop, no play, no log, alarm paused at 0 |
| Monitor.TickStrictThreshold | 2.js:88-97 | a difference of exactly 20 × area is idle, the tick is idle if and only if the difference is at most 20 × area, and above it the alarm is not stopped and a log is requested exactly when logging is enabled |
| Monitor.TickPlay | 2.js:89-90 | play is requested if and only if the tick is processed, has a baseline, exceeds the threshold, alarms are enabled and the alarm is paused |
| Monitor.TickNoReplay | 2.js:89-90 | two consecutive motion ticks with the alarm enabled on the first never request play on the second |
| Monitor.TickLog | 2.js:89-112 | a log is requested if and only if the tick is processed, has a baseline, exceeds the threshold and logging is enabled; it then appends exactly `{timestamp, image}`, and otherwise the log is unchanged |
| Monitor.TickIgnoresAlpha | 2.js:80-97 | replacing alpha samples of the baseline (when there is one) or of the current frame leaves the directives, log, alarm and reschedule flag unchanged |
| Monitor.FirstTickAfterLoad | 2.js:14-31 | the page-load state is well-formed, and the first tick after starting only stores the baseline, issues nothing and leaves the log empty |
| Monitor.StopThenTick | 2.js:35-39 | stopping leaves the alarm paused at 0 and keeps the baseline and log; the next tick is a no-op that ends the loop |
| Monitor.RestartScoresAgainstOldFrame | 2.js:26-41 | neither stop nor start clears the previous frame, so the first tick after a restart is scored against the last frame before the stop |

## Left out

- Camera acquisition, `requestAnimationFrame` scheduling and DOM access (`getUserMedia`, `getElementById`, status text, the log `div`): these are browser I/O. A tick's reschedule request is returned as a flag.
- Canvas drawing and encoding (`drawImage`, `getImageData`, `toDataURL`): the current frame is an input sequence of samples of fixed length 4 × 640 × 480, and the image data URL is an opaque string input.
- The wall-clock timestamp `new Date().toLocaleString()`: it is an opaque string input. The code promises nothing about its order, so no ordering of log timestamps is stated.
- Zone drawing (`toggleZoneDraw`, `startZone` and its mouse listeners): interactive UI, and the resulting zone is never read by detection.
- `downloadLogs` (JSZip archive and blob download): a foreign library and asynchronous I/O.
- `sendEmailAlert` and `uploadToCloud`: console-logging stubs for external services.
- The alarm element's own behaviour: its playback position advancing while it plays, it pausing itself when the sound ends, and a refused `play()` (an autoplay block or an unsupported source) that leaves it paused. Only the paused flag and the reset to position 0 are modelled, and a requested play is taken to clear the paused flag.
- Alarm.NoReplayWhilePlaying: assumes the first `play()` took effect. If the browser refused it, the element stays paused and 2.js:90 calls `play()` again on the next motion tick.
- Monitor.TickNoReplay: assumes the first `play()` took effect, for the same reason.
- Floating-point division: replaced by the equivalent integer comparison described above.
- Calling `startMonitoring` twice, which starts two interleaved tick loops: this concerns concurrent scheduling, which is not modelled.
