# Compression-session controller, modelled in Dafny

This project models the client side of an SMS compression page (`frontend/src/App.jsx`): the
session state (input text, latest outcome, decompressed text, busy flag), the compress and
decompress handlers that talk to a remote Zstandard gateway, the `disabled` gating of the two
buttons, and the effect that animates the displayed compression ratio. The gateway is an oracle:
its answers are parameters of the transitions that resolve a request.

Modules (one file each):

- `options.dfy` — `Options`: optional values and the `field || 0` default.
- `text.dfy` — `JsText`: the whitespace set of JavaScript's `trim` and the blank-input test.
- `ratio.dfy` — `Ratio`: the percentage reduction in exact integer hundredths of a percent,
  rounded half away from zero as `toFixed(2)` does.
- `animator.dfy` — `RatioAnimator`: interval closures, their ticks, the effect's cleanup and
  re-arming, and the closed form of the count-up.
- `session.dfy` — `Session`: the outcome record as a tagged union, the session state, and the
  four handler halves (issue and resolve, for compress and for decompress).
- `app.dfy` — `App`: user events and gateway answers, button gating, the effect re-run on each
  new outcome, runs of events, and the invariant of every reachable page.

Modelling choices:

- Ratios and the displayed value are integers counting hundredths of a percent; one animation
  tick adds 100.
- Each handler is split into the click, which may send a request, and the later answer. The
  session keeps the outstanding requests: the text each compress request submitted and the
  payload each decompress request sent. Answers resolve the oldest request.
- The two size fields are `Option<nat>`, and an absent one defaults to 0. The time is kept as
  answered, possibly absent. The payload is
  `Option<string>`, and the decompress guard reads it with JavaScript truthiness, so absent and
  `""` both block.
- Timer ids come from a counter. Timer ticks and cancellations are discrete events.
- An event the page cannot receive in its current state leaves the page unchanged. This covers a
  click on a disabled button, an answer with no outstanding request, and a tick of a cleared
  interval.

Behaviour of the code worth knowing, all proved in the model:

- A failed compression and a blank-input submission replace the outcome but do not clear the
  decompressed text. Only a successful compression clears it.
- A new successful outcome re-arms the animation from 0, but the display keeps its previous
  value until the new interval first fires (`App.DisplayHoldsUntilFirstTick`). So for one tick
  the display can exceed the new ratio.
- The compress button is disabled only while a compression is running, and a decompress click
  disables nothing. So a compression can start while a decompression is outstanding. Answers
  carry no generation counter. So a late decompress answer can overwrite the cleared text next
  to a newer outcome
  (`App.StaleDecompressionCanSurvive`).
- A ratio for a grown payload is negative when the growth is at least half a hundredth of a
  percent. A smaller growth rounds to 0. A negative ratio is taken on the first tick.

## Model

| member | source | states |
|---|---|---|
| Options.OrZero | frontend/src/App.jsx:69-70 | an absent size field reads as 0; a present one is kept |
| JsText.TrimStart | frontend/src/App.jsx:54 | the result is a suffix of the input starting with a non-whitespace character, and every dropped character is whitespace |
| JsText.TrimEnd | frontend/src/App.jsx:54 | the result is a prefix of the input ending with a non-whitespace character, and every dropped character is whitespace |
| JsText.Trim | frontend/src/App.jsx:54 | the trimmed text is a slice of the input with no whitespace at either end, and every character outside the slice is whitespace |
| JsText.BlankIffAllWhitespace | frontend/src/App.jsx:54 | input is rejected as blank exactly when every character is JavaScript whitespace, the empty input included |
| Ratio.RoundHalfAway | frontend/src/App.jsx:74 | the result is within half a unit of the exact quotient, a tie goes away from zero, and the sign is kept |
| Ratio.RatioHundredths | frontend/src/App.jsx:72-75 | 0 when the original size is 0; otherwise within 0.005 % of (1 − compressed/original)·100; never above 100 %; non-negative when the payload did not grow; negative when it grew by at least 0.005 % |
| Ratio.RatioIsNearest | frontend/src/App.jsx:72-75 | any value strictly within 0.005 % of the exact reduction is the computed ratio |
| Ratio.SeventeenToTen | frontend/src/App.jsx:72-75 | 17 bytes compressed to 10 give 41.18 % |
| RatioAnimator.ElapseClosedForm | frontend/src/App.jsx:21-29 | iterating the interval callback (`Tick`, repeated by `Elapse`): after k ≥ 1 ticks the count is min(k points, target), and the interval runs exactly while k points fall short of the target |
| RatioAnimator.ElapseBounded | frontend/src/App.jsx:23-28 | for a target ≥ 0 the count never leaves [0, target] |
| RatioAnimator.ElapseMonotone | frontend/src/App.jsx:23-28 | for a target ≥ 0 the count never decreases over time |
| RatioAnimator.ElapseReachesTarget | frontend/src/App.jsx:23-28 | a positive target is reached after exactly ⌈target in percent⌉ ticks, when the interval stops; before then the count is below it and running |
| RatioAnimator.ElapseSmallTarget | frontend/src/App.jsx:23-28 | a target of at most 1 %, negative ones included, is taken on the first tick |
| RatioAnimator.AtMostOneTimer | frontend/src/App.jsx:35-39 | in a well-formed animator at most one interval is live |
| RatioAnimator.Restart | frontend/src/App.jsx:15-44 | a new outcome cancels the previously armed interval; with a ratio it arms one fresh interval from 0 towards it and keeps the display; without one it resets the display to 0 and arms nothing; well-formedness is kept |
| RatioAnimator.Fire | frontend/src/App.jsx:22-29 | one firing of the callback (`Tick`): the interval clears itself exactly when count + 1 point reaches the target, and exactly then the display shows the target; while it runs it has advanced one point and keeps its target; from a count and target ≥ 0 the display stays in [0, target] |
| RatioAnimator.Teardown | frontend/src/App.jsx:35-39 | the final cleanup leaves no interval live |
| RatioAnimator.RestartFollowsElapse | frontend/src/App.jsx:15-32 | after a restart with ratio t, k ticks of the armed interval show exactly the closed-form count and leave it live exactly while the count-up runs |
| RatioAnimator.AnimationSettles | frontend/src/App.jsx:18-29 | after enough ticks the display stands exactly at a positive ratio and no interval is live |
| Session.Edit | frontend/src/App.jsx:169 | typing changes only the input text, sends nothing and sets no outcome |
| Session.IssueCompress | frontend/src/App.jsx:54-67 | no request is sent exactly when the input is all whitespace; then the outcome is the "Input required." failure and busy flag, decompressed text and requests are untouched; otherwise the current text is sent, busy is raised and the outcome is kept |
| Session.ResolveCompress | frontend/src/App.jsx:65-103 | busy always drops and the outcome is replaced; a success holds the submitted text, the returned payload, sizes defaulted to 0, the time and the ratio of those sizes (0 when the original size is absent or 0, otherwise within 0.005 % of the exact reduction, at most 100 %), and clears the decompressed text; a rejection yields the "Compression failed." failure and keeps the decompressed text |
| Session.IssueDecompress | frontend/src/App.jsx:107-117 | a request is sent exactly when the outcome holds a non-empty payload and no error, and it carries that payload; otherwise the guard message is written; outcome and busy flag never change |
| Session.ResolveDecompress | frontend/src/App.jsx:114-123 | the answer's plaintext, or the decompression error message, becomes the decompressed text; nothing else changes |
| Session.DecompressOnlyAfterSuccess | frontend/src/App.jsx:108-112 | in a reachable session only a success with a non-empty payload passes the guard; failure outcomes never reach the gateway |
| App.RatioOf | frontend/src/App.jsx:16-17 | an outcome has a ratio for the animator exactly when it is a success, and that ratio is the success's own |
| App.Step | frontend/src/App.jsx:182-224 | the button gating (`CompressEnabled`, `DecompressEnabled`): only the two clicks ever send a request; a compress click sends exactly when enabled and the input is not all whitespace, and then sends the current text; the busy flag is raised only by a compress click; a compress click while busy does nothing; a decompress click with no outcome or while busy does nothing; an enabled decompress click on a success with a non-empty payload sends that payload, and on a well-formed page nothing else is ever sent; only compress events change the outcome; decompress events never touch the busy flag; well-formedness is kept |
| App.Run | frontend/src/App.jsx:6-11 | every sequence of events from a well-formed page ends in a well-formed page |
| App.Reachable | frontend/src/App.jsx:63-103 | on every reachable page at most one compression is in flight, busy is raised exactly while it is, at most one animation interval is live, and every live interval counts towards the current outcome's ratio |
| App.CompressThenDecompress | frontend/src/App.jsx:63-118 | a full cycle submits the text, sends back exactly the returned payload, and shows the decompress answer's plaintext, whatever it is, or the error message on a rejection |
| App.SubmittedTextIsRecorded | frontend/src/App.jsx:67-79 | the outcome holds the text as it was at the click, even when the input is edited before the answer |
| App.StaleDecompressionCanSurvive | frontend/src/App.jsx:90-118 | from any idle page holding a success, decompress then compress can be clicked; the compress answer clears the decompressed text, and the late decompress answer for the earlier payload then shows next to the newer outcome |
| App.DecompressClickQueues | frontend/src/App.jsx:107-117 | on an idle page holding a success with a payload, a decompress click queues exactly that payload and changes nothing else |
| App.CompressClickQueues | frontend/src/App.jsx:63-67 | on an idle page with non-blank input, a compress click raises busy and queues the input text; nothing else in the session changes, and the animation is left running since no outcome is set |
| App.CompressAnswerKeepsDecompressQueue | frontend/src/App.jsx:78-91 | a successful compress answer records the submitted text and clears the decompressed text but leaves outstanding decompress requests in place |
| App.DecompressAnswerShows | frontend/src/App.jsx:114-118 | a decompress answer shows its plaintext and keeps the outcome, whenever it arrives |
| App.DisplayHoldsUntilFirstTick | frontend/src/App.jsx:15-42 | a success re-arms exactly one interval and keeps the display until its first tick; a rejection resets the display to 0 and leaves no interval |

## Left out

- The backend (`backend/app.py`): the Zstandard compression, base64 coding, timing and the
  backend's own empty-text check are the gateway oracle, not modelled code.
- HTTP transport: axios, the fixed address and JSON plumbing become the reply datatypes.
- Floating point: `toFixed(2)` and `parseFloat` are modelled on exact rationals. Binary
  rounding of `(1 - c/o) * 100` can move a tie; sizes are whole numbers.
- Timing: the 10 ms interval period and React's effect scheduling are discrete events; the
  effect runs as part of the transition that sets a new outcome.
- Out-of-order answers: answers resolve the oldest outstanding request of their kind. Arbitrary
  reordering of overlapping decompress answers is not modelled.
- Size fields are natural numbers. A negative or fractional size, which the backend never sends,
  is not modelled.
- An absent `decompressed_text` field is not modelled; a decompress answer always carries a string.
- Logging, `preventDefault`, the JSX markup and styling, the conic-gradient angle and the
  one-decimal display formatting.
- RatioAnimator.Restart: requires a well-formed animator, because fresh timer ids are the
  browser's guarantee, not something the effect checks.
