# Censor overlay receiver

A model of the Cast receiver script `js/main.js`. The receiver keeps a list of
censor ranges `{start, end}` (playback seconds). A custom message with an
`overlays` field replaces the list. A 200 ms polling tick reads the media
element's `currentTime`. It then sets the `censorOverlay` element's
`style.display` to `"flex"` while some range covers that time and to `"none"`
otherwise. The tick writes, and logs, only when the value actually changes.

Modules:

- `Intervals` (intervals.dfy): the `Interval` value and the inclusive membership
  test `IsCensored`. `ScanCensored` is the `some` scan, proved equal to it. The
  lemmas cover the inclusive bounds, ranges with `start > end`, order
  independence and concatenation.
- `Sync` (sync.dfy): one tick as a pure transition `Tick` on the display value,
  and `Run` for a sequence of ticks. The lemmas cover skipped ticks, the state
  after a tick, idempotence, writes happening only on changes, the empty list
  and a worked example.
- `CensorReceiver` (receiver.dfy): the message shape and the `Receiver` class.
  Its fields are `overlays` (`censorOverlays`), `display` (the element's
  `style.display`) and `log` (the debug lines). `OnMessage` is the
  custom-message listener. `Tick` is the interval callback, written
  imperatively and proved against `Sync.Tick`.
- `Wrappers` (wrappers.dfy): `Option`.

Environment inputs become parameters. A tick receives a `Probe`: the media
element's `currentTime` if there is a media element, and whether the overlay
element was found. The initial display is a constructor parameter, because the
script never sets it. Times are Dafny `real`s.

Points about the script that are easy to misread:

- The display starts as whatever the page gives the element; the script never
  initialises it.
- A display holding any value other than `"flex"` or `"none"` (only the initial
  one can) is rewritten by the next tick that sees both elements.
- Ranges are not validated: one with start > end simply never matches.
- The polling timer is started once and never stopped.

## Model

| member | source | states |
|---|---|---|
| Intervals.ScanCensored | js/main.js:39-41 | the linear `some` scan returns true exactly when some range in the list covers the time, both bounds included |
| Intervals.BoundsInclusive | js/main.js:39-41 | both the start and the end of a well-formed range in the list count as censored |
| Intervals.OutsideEveryRange | js/main.js:39-41 | a time strictly outside every range is not censored; the empty list censors nothing |
| Intervals.MalformedNeverMatches | js/main.js:40 | a range with start > end covers no time |
| Intervals.MalformedIrrelevant | js/main.js:39-41 | removing every range with start > end never changes whether a time is censored |
| Intervals.ConcatCensored | js/main.js:39-41 | the concatenation of two lists censors exactly the times that either list censors |
| Intervals.CensoredMonotone | js/main.js:39-41 | a list each of whose ranges occurs somewhere in a second list censors no time the second does not |
| Intervals.OrderIrrelevant | js/main.js:39-41 | any permutation of the list censors the same times |
| Sync.TickSkipped | js/main.js:30-36 | a tick with no media element or no overlay element keeps the display and writes nothing |
| Sync.TickSettles | js/main.js:39-59 | after a tick that sees both elements, the display is "flex" iff some range covers the time and "none" otherwise; it wrote iff the display was different before, and the write carries that value and time |
| Sync.TickIdempotent | js/main.js:43-59 | a second tick with the same inputs and ranges writes nothing and keeps the display |
| Sync.RunAppend | js/main.js:29-60 | running two sequences of ticks one after the other equals running their concatenation |
| Sync.RunWritesOnlyOnChange | js/main.js:43-59 | in any run, every write changes the display: the first write differs from the starting value, consecutive writes alternate, and the final display is the last value written (or the start if nothing was written) |
| Sync.RunRepeatIdempotent | js/main.js:44-53 | repeating the last tick of any run adds no write and keeps the final display |
| Sync.SkippedTickInvisible | js/main.js:30-36 | a tick without media or overlay element inserted anywhere in a run leaves the run's writes and final display unchanged, so the next good tick detects the transition |
| Sync.EmptyNeverShows | js/main.js:39-59 | with an empty list, a run never shows the overlay and hides it at most once, and only if the display was not already "none" |
| Sync.ExampleRun | js/main.js:29-60 | with ranges 10..20 and 50..55 and display "none", ticks at 5, 10, 15, 20, 25, 52, 60 write show at 10, hide at 25, show at 52 and hide at 60, and nothing else |
| CensorReceiver.Receiver.constructor | js/main.js:5 | the list of ranges starts empty and the display is whatever the page holds |
| CensorReceiver.Receiver.OnMessage | js/main.js:14-25 | a message whose data has overlays replaces the whole list with them (an empty list too) and logs the count; any other message leaves the list unchanged; the display is never touched |
| CensorReceiver.Receiver.Tick | js/main.js:29-60 | the list is untouched; the display, the returned write flag and the log lines appended are those of the pure tick `Sync.Tick` |

## Left out

- The Cast receiver framework is not modelled: getting the context and player manager, registering the listener, and `context.start()`. These are foreign runtime calls.
- The DOM and the media element are reduced to inputs: whether each element is present, and the element's current time. The overlay's `style.display` is modelled as a string.
- The `setInterval` scheduling and its 200 ms period are not modelled. Each tick is a call made on demand.
- The `debug` helper is modelled only as appending a `LogLine` to `log`. The "Receiver started" line, `console.error` and the screen output are not modelled.
- The `try/catch` around the listener body is not modelled. In this model nothing inside the body can throw.
- A truthy `overlays` value that is not an array is not modelled: the script would store it, and every later tick would then fail in `some`. A missing or falsy field is modelled as `None`.
- A `null` or `undefined` element in the list is not modelled: when the scan reaches it before a covering range, reading `overlay.start` throws inside the interval callback, which no try/catch guards, so that tick writes nothing; every later tick at a time no earlier range covers fails the same way until a new message replaces the list, so an overlay already shown stays shown. `Interval` has no such element.
- Interval bounds are not checked to be numbers: a range whose fields are missing compares false in JavaScript, and is modelled only as far as a range that covers no time (start > end).
- `currentTime` is modelled as a Dafny `real`, so floating point, NaN and infinities are not modelled.
- The commented-out mute and unmute code is not modelled.
