# Behavioural signature pipeline — a Dafny model

This project models the computational core of a behavioural-biometrics demo:

- **The Jlyn cipher** (`src/utils/jlynCipher.ts`). A sequence of numbers becomes a
  signature `JLYN_<hex>_<base-36 clock>`. The steps are:
  - each value becomes its rounded z-score times 100;
  - each of those becomes one of ten star symbols;
  - each symbol becomes a position-weighted hash written in base 36;
  - each character of that becomes its code XOR its index, as two hex digits.

  An empty sequence gets the fallback `JLYN_FALLBACK_<random>_<clock>` instead.
  Signatures are validated by their prefix and their number of `_`-pieces. Two
  signatures are compared by the share of positions where their hex segments agree.
- **The capture aggregator** (`src/utils/behavioralCapture.ts`). It buffers key,
  pointer and touch samples. On each key release it analyses the last four key
  events into dwell and flight times. On each click it analyses the last five
  pointer samples into velocities and accelerations. On each navigation event it
  records one value. It reports the mean confidence of its patterns and a
  signature of all their values.
- **The scoring of the verification page** (`src/pages/Verification.tsx`). Each of
  four steps draws a score from its own range, and a step passes above 70. While
  the steps run, the page shows the rounded mean of the passed steps. The final
  rounded mean of all four scores decides the trust level.

Modules, leaf first:

- `Numeric` (`numeric.dfy`) holds the numeric operations the code uses:
  - `Math.round`;
  - sums, mean and population standard deviation over `real`;
  - JavaScript's `%` on non-negative reals;
  - XOR on naturals.
- `Text` (`text.dfy`) holds the string operations:
  - `toString(radix)`;
  - `padStart`;
  - `startsWith`;
  - `split` and `join` on one character.
- `JlynCipher` (`cipher.dfy`) models the cipher.
- `BehavioralCapture` (`capture.dfy`) models the aggregator. Every DOM event is a
  transition `Step` on an immutable `Capture` record.
- `Verification` (`verification.dfy`) models the scoring and the trust levels.

Time and randomness are parameters:

- `performance.now()` is the `at` field of an event, a non-negative real.
- `Date.now()` is a natural `now`, and `Math.random()` is a draw `r` with
  `0 <= r < 1`.
- The random digits of the fallback signature are a string parameter.

Numbers are mathematical reals and integers, not IEEE doubles. `Math.sqrt` is an
unspecified function that is non-negative, and zero exactly at zero
(`Numeric.Sqrt`).

Three consequences of the code that are easy to get wrong:

- **Key events.** Down `a`@0, up `a`@80, down `b`@150, up `b`@210 give `[80, 60]`:
  two dwell times and no flight time. A flight needs a release at `i` and a press
  at `i + 2`, and the event two after `a`'s release is a release
  (`BehavioralCapture.KeystrokeScenario`).
- **Pointer events.** Moves never trigger analysis and a click does. Four moves,
  one of zero duration, then a click give three velocities and two accelerations
  (`BehavioralCapture.MouseScenario`).
- **Re-runs of the verification page.** The page runs its steps again whenever the
  user object changes, and every run ends by setting a new one. The step objects
  are shared with the page's state and mutated in place. So on a later run, the
  steps not yet rescored still hold the previous run's status and score, and the
  running score averages them in. `Verification.StartVerification` therefore
  starts from any list a run can leave behind (`Verification.Startable`), and
  `Verification.StaleStepsCount` shows the effect.

## Model

| member | source | states |
|---|---|---|
| Numeric.Round | src/pages/Verification.tsx:87 | `Math.round` gives the integer within half a unit of `x`, with halves going up |
| Numeric.RoundMonotone | src/pages/Verification.tsx:93 | rounding never reverses the order of two values |
| Numeric.MeanBounds | src/utils/behavioralCapture.ts:196-201 | a mean lies between any lower and upper bound of its values |
| Numeric.StdDevOfConstant | src/utils/jlynCipher.ts:35-36 | equal values have their common value as mean and zero standard deviation |
| Numeric.JsRemainder | src/utils/behavioralCapture.ts:171 | JavaScript's `%` keeps the sign of the dividend and stays below the modulus in size |
| Numeric.RemainderBelowModulus | src/utils/behavioralCapture.ts:171 | a timestamp below 1000 is its own remainder |
| Numeric.RemainderPeriodic | src/utils/behavioralCapture.ts:171 | whole periods of 1000 ms do not change the navigation value |
| Numeric.XorBound | src/utils/jlynCipher.ts:66 | the XOR of two bytes is a byte |
| Numeric.XorInvolution | src/utils/jlynCipher.ts:66 | XOR with the same key twice restores the code |
| Text.ToRadix | src/utils/jlynCipher.ts:56 | `toString(radix)` gives at least one digit of the base, with no leading zero |
| Text.RadixRoundTrip | src/utils/jlynCipher.ts:56 | reading the digits of `n.toString(base)` back gives `n` |
| Text.RadixLength | src/utils/jlynCipher.ts:56 | a number below `base^k` takes at most `k` digits |
| Text.Hex2RoundTrip | src/utils/jlynCipher.ts:67 | below 256, `toString(16).padStart(2, '0')` is exactly two hex digits denoting the number |
| Text.PadStart | src/utils/jlynCipher.ts:67 | padding keeps the string as a suffix, fills only the front, and reaches the width |
| Text.JoinSplit | src/utils/jlynCipher.ts:78 | joining the pieces of a split restores the string |
| Text.SplitJoin | src/utils/jlynCipher.ts:78 | splitting a join of separator-free pieces restores the pieces |
| JlynCipher.StarTableRoundTrip | src/utils/jlynCipher.ts:6-8 | every decimal digit has a star symbol, and the symbol reads back as that digit |
| JlynCipher.StarTableSkips2728 | src/utils/jlynCipher.ts:6-8 | the ten symbols are consecutive code points from U+2726 except that U+2728 is skipped |
| JlynCipher.Divisor | src/utils/jlynCipher.ts:38 | the `stdDev or 1` fallback is always a positive divisor |
| JlynCipher.NormalizePatterns | src/utils/jlynCipher.ts:34-39 | one score per value; values at or above the mean score non-negative, at or below non-positive |
| JlynCipher.ZScoreSign | src/utils/jlynCipher.ts:38 | the sign of a normalised value follows its side of the mean |
| JlynCipher.NormalizeMonotone | src/utils/jlynCipher.ts:34-39 | normalisation preserves the order of any two values |
| JlynCipher.NormalizeConstant | src/utils/jlynCipher.ts:34-39 | equal values all normalise to 0, because a zero spread divides by 1 |
| JlynCipher.CharacterMapping | src/utils/jlynCipher.ts:41-46 | one symbol per score, the symbol of its absolute value modulo 10 |
| JlynCipher.PositionHash | src/utils/jlynCipher.ts:55 | every position hash is below 2048 |
| JlynCipher.PositionHashDigits | src/utils/jlynCipher.ts:55-56 | every hash takes one to three base-36 digits |
| JlynCipher.StarHashes | src/utils/jlynCipher.ts:52-57 | the hashes of a suffix are base-36 digits, one to three per symbol |
| JlynCipher.ApplyStarMapping | src/utils/jlynCipher.ts:48-60 | the output is base-36 digits, one to three per input symbol |
| JlynCipher.EncryptChar | src/utils/jlynCipher.ts:65-67 | each character gives hex digits, exactly two when its code is below 256 |
| JlynCipher.EncryptFrom | src/utils/jlynCipher.ts:64-68 | a suffix encrypts to hex digits, two per character below 256 |
| JlynCipher.DeterministicEncryption | src/utils/jlynCipher.ts:62-70 | the output is hex, and exactly twice as long for byte characters |
| JlynCipher.DecryptFrom | src/utils/jlynCipher.ts:62-70 | the inverse reading yields byte characters, one per hex pair |
| JlynCipher.EncryptCharRoundTrip | src/utils/jlynCipher.ts:65-67 | one encrypted character's two hex digits, XORed with its index again, give back its code |
| JlynCipher.EncryptionRoundTrip | src/utils/jlynCipher.ts:62-70 | decryption undoes `deterministicEncryption` on every string of byte characters |
| JlynCipher.Payload | src/utils/jlynCipher.ts:22-25 | the hex segment has between 2 and 6 hex digits per input value |
| JlynCipher.ClockDigits | src/utils/jlynCipher.ts:27 | the clock segment is separator-free base-36 digits that read back as `Date.now()` |
| JlynCipher.FallbackSignature | src/utils/jlynCipher.ts:72-75 | a fallback validates and is recognised as one; its first pieces are `JLYN` and `FALLBACK`; with separator-free random digits it splits into exactly the tag, the marker, the digits and the clock |
| JlynCipher.ValidateSignature | src/utils/jlynCipher.ts:77-79 | a signature validates exactly when it starts with `JLYN_` and another `_` follows that prefix |
| Text.SplitCount | src/utils/jlynCipher.ts:78 | a split has at least two pieces exactly when the separator occurs |
| JlynCipher.PrimaryPieces | src/utils/jlynCipher.ts:27 | a primary signature splits into exactly the tag, the payload and the clock |
| JlynCipher.AssembleShape | src/utils/jlynCipher.ts:27 | an assembled signature validates, is no fallback, and splits back into its three parts |
| JlynCipher.PrimarySignature | src/utils/jlynCipher.ts:20-27 | a non-empty input's signature validates, is no fallback, and carries its payload and clock |
| JlynCipher.GenerateSignature | src/utils/jlynCipher.ts:17-32 | every signature validates; it is a fallback exactly for the empty input; otherwise it carries the payload and the clock |
| JlynCipher.ClockOnlyInLastSegment | src/utils/jlynCipher.ts:27 | the clock affects only the last segment: the same values give the same hex segment at any time |
| JlynCipher.Matches | src/utils/jlynCipher.ts:93-98 | the count of agreeing positions is at most the shorter length |
| JlynCipher.MatchesSymmetric | src/utils/jlynCipher.ts:93-98 | counting agreeing positions does not depend on the order of the strings |
| JlynCipher.MatchesAll | src/utils/jlynCipher.ts:93-98 | two equally long strings that agree everywhere are equal |
| JlynCipher.CountMatches | src/utils/jlynCipher.ts:93-98 | the counting loop over indices below the shorter length computes exactly the agreement count `Matches` |
| JlynCipher.CalculateTolerance | src/utils/jlynCipher.ts:81-101 | the tolerance is in [0, 1]; it is 0 if either signature is invalid; it is 1 exactly for two valid signatures with equal hex segments; otherwise it is the agreement count of the hex segments divided by the longer segment's length |
| JlynCipher.AsciiSignature | src/utils/jlynCipher.ts:17-32 | every character of a signature is ASCII when the random digits are, so characters and UTF-16 code units coincide on signatures |
| JlynCipher.ToleranceSymmetric | src/utils/jlynCipher.ts:81-101 | tolerance is symmetric |
| JlynCipher.ToleranceReflexive | src/utils/jlynCipher.ts:81-90 | every valid signature is fully tolerant of itself |
| JlynCipher.FallbacksAlwaysMatch | src/utils/jlynCipher.ts:72-90 | any two fallback signatures get tolerance 1, whatever their random digits and clocks |
| JlynCipher.SameValuesMatch | src/utils/jlynCipher.ts:17-90 | signatures of the same values at different times get tolerance 1 |
| BehavioralCapture.Clamp | src/utils/behavioralCapture.ts:189 | `max(lo, min(hi, x))` lies in [lo, hi], and is `x` when `x` is already inside |
| BehavioralCapture.ConfidenceOf | src/utils/behavioralCapture.ts:189 | the confidence is in [0.3, 1] for every mean, the zero mean included |
| BehavioralCapture.Confidence | src/utils/behavioralCapture.ts:180-190 | the confidence is 0 exactly for no values, otherwise it is in [0.3, 1] |
| BehavioralCapture.ConfidenceOfConstant | src/utils/behavioralCapture.ts:180-190 | equal values, zeros included, get full confidence |
| BehavioralCapture.ConfidenceNegativeMean | src/utils/behavioralCapture.ts:189 | a negative mean gives full confidence |
| BehavioralCapture.ConfidenceMonotone | src/utils/behavioralCapture.ts:189 | with a positive mean, a larger spread never raises the confidence |
| BehavioralCapture.ConfidenceUnclamped | src/utils/behavioralCapture.ts:189 | while the spread is at most 0.7 of the mean, the confidence is exactly `1 - sd / mean` |
| BehavioralCapture.NewPattern | src/utils/behavioralCapture.ts:115-122 | a pattern keeps its kind, values, confidence and time; its id has its kind's prefix; its signature is a valid primary one over its own values |
| BehavioralCapture.DwellFrom | src/utils/behavioralCapture.ts:100-105 | there are fewer dwell times than key events |
| BehavioralCapture.FlightFrom | src/utils/behavioralCapture.ts:108-112 | there are fewer flight times than key events minus one |
| BehavioralCapture.DwellMembers | src/utils/behavioralCapture.ts:100-105 | a value is a dwell time exactly when an adjacent press and release of one key produce it |
| BehavioralCapture.FlightMembers | src/utils/behavioralCapture.ts:108-112 | a value is a flight time exactly when a release and a press two events later produce it |
| BehavioralCapture.KeystrokeIntervals | src/utils/behavioralCapture.ts:96-112 | the two loops collect exactly the dwell and the flight times, in order |
| BehavioralCapture.KeyWindowOf | src/utils/behavioralCapture.ts:95 | `slice(-4)` is the last four key events, in order |
| BehavioralCapture.AnalyzeKeystrokes | src/utils/behavioralCapture.ts:92-126 | buffers are unchanged; fewer than four events change nothing; a pattern is appended exactly when the last four events yield a value; it is a keystroke pattern of those values, at their confidence, stamped `now`; nothing earlier changes |
| BehavioralCapture.Speed | src/utils/behavioralCapture.ts:137-142 | a speed is never negative |
| BehavioralCapture.VelocitiesFrom | src/utils/behavioralCapture.ts:136-145 | there are fewer velocities than samples, none negative |
| BehavioralCapture.VelocityMembers | src/utils/behavioralCapture.ts:136-145 | a value is a velocity exactly when a pair of samples with time elapsing between them produces it |
| BehavioralCapture.VelocitiesAllMoving | src/utils/behavioralCapture.ts:136-145 | when time moves forward at every step, every adjacent pair gives its speed, in order |
| BehavioralCapture.StationaryPointer | src/utils/behavioralCapture.ts:136-145 | a pointer that never moves has zero velocity throughout |
| BehavioralCapture.Accelerations | src/utils/behavioralCapture.ts:148-150 | there is one non-negative acceleration per adjacent pair of velocities |
| BehavioralCapture.ConstantSpeedNoAcceleration | src/utils/behavioralCapture.ts:148-150 | constant speed means zero acceleration |
| BehavioralCapture.AccelerationMeasuresChange | src/utils/behavioralCapture.ts:149 | each acceleration is the size of the change between neighbouring speeds |
| BehavioralCapture.PointerWindowOf | src/utils/behavioralCapture.ts:131 | `slice(-5)` is the last five pointer samples, in order |
| BehavioralCapture.AnalyzeMouse | src/utils/behavioralCapture.ts:128-164 | buffers are unchanged; fewer than five samples change nothing; a pattern is appended exactly when the last five samples yield a velocity; it is a mouse pattern of the velocities and accelerations, at their confidence, stamped `now`; nothing earlier changes |
| BehavioralCapture.RecordNavigation | src/utils/behavioralCapture.ts:166-178 | exactly one navigation pattern is appended; its one value is the timestamp modulo 1000, in [0, 1000); its confidence is 0.8 |
| BehavioralCapture.Pressure | src/utils/behavioralCapture.ts:69 | a force fallback of 0.5 is never 0 and keeps any non-zero force |
| BehavioralCapture.RecordTouches | src/utils/behavioralCapture.ts:62-74 | one sample per touch point is appended, with its coordinates, its force or 0.5, and the event time; nothing else changes |
| BehavioralCapture.Step | src/utils/behavioralCapture.ts:18-89 | a reset empties the aggregator; any other event appends at most one pattern and keeps the earlier ones; only a touch changes the touch buffer, by one sample per point |
| BehavioralCapture.StepPreservesValid | src/utils/behavioralCapture.ts:17-90 | every pattern any event appends is well formed |
| BehavioralCapture.StepAppendsOnly | src/utils/behavioralCapture.ts:17-90 | an event other than reset appends at most one pattern; presses, moves and touches append none; navigation always appends one |
| BehavioralCapture.StepBuffers | src/utils/behavioralCapture.ts:17-59 | key and pointer events append exactly their own sample to their own buffer |
| BehavioralCapture.ResetEmpties | src/utils/behavioralCapture.ts:208-213 | `reset` empties all four collections |
| BehavioralCapture.RunPreservesValid | src/utils/behavioralCapture.ts:17-90 | every stored pattern stays well formed over any event sequence |
| BehavioralCapture.RunOnlyAppends | src/utils/behavioralCapture.ts:124 | without a reset, earlier patterns are never dropped or reordered |
| BehavioralCapture.NoTouchPatterns | src/utils/behavioralCapture.ts:62-74 | touch samples never turn into patterns |
| BehavioralCapture.OverallConfidence | src/utils/behavioralCapture.ts:196-201 | the overall confidence is 0 with no patterns, otherwise in [0.3, 1] |
| BehavioralCapture.OverallConfidenceOfTwo | src/utils/behavioralCapture.ts:196-201 | patterns at 0.5 and 0.9 average to 0.7 |
| BehavioralCapture.FlattenAppend | src/utils/behavioralCapture.ts:204 | `flatMap` distributes over concatenation |
| BehavioralCapture.FlattenEmpty | src/utils/behavioralCapture.ts:204 | with non-empty patterns, the flattened values are empty exactly when there are no patterns |
| BehavioralCapture.Signature | src/utils/behavioralCapture.ts:203-206 | the signature always validates, and for valid captures it is a fallback exactly when there are no patterns |
| BehavioralCapture.SignatureGrows | src/utils/behavioralCapture.ts:203-206 | without a reset, the values signed before an event are a prefix of those signed after it |
| BehavioralCapture.KeystrokeScenario | src/utils/behavioralCapture.ts:92-126 | down `a`@0, up `a`@80, down `b`@150, up `b`@210 yield one keystroke pattern with values [80, 60] |
| BehavioralCapture.MouseScenario | src/utils/behavioralCapture.ts:128-164 | four moves, one of them of zero duration, then a click yield one mouse pattern of five values |
| Verification.GetTrustLevel | src/pages/Verification.tsx:122-128 | the level is `new` exactly below 40 |
| Verification.TrustLevelThresholds | src/pages/Verification.tsx:122-128 | a score earns a level or better exactly when it reaches that level's threshold (40, 60, 80, 90) |
| Verification.TrustLevelMonotone | src/pages/Verification.tsx:122-128 | a higher score never gives a lower level |
| Verification.ThresholdEarnsLevel | src/pages/Verification.tsx:122-128 | each threshold score earns exactly its level |
| Verification.ParseStepId | src/pages/Verification.tsx:119 | looking a name up keeps the name |
| Verification.ParseName | src/pages/Verification.tsx:119 | each of the four known ids is found by its own name |
| Verification.StepScore | src/pages/Verification.tsx:110-120 | every step's score lies in its range: behavioral 85-95, consistency 80-95, risk 70-90, social 75-95, unknown 75 |
| Verification.StepScoreExtremes | src/pages/Verification.tsx:112-117 | both ends of each known range are reached by some draw |
| Verification.UnknownStepScore | src/pages/Verification.tsx:119 | an unknown id scores 75 whatever the draw |
| Verification.StatusOf | src/pages/Verification.tsx:80 | a scored step is either completed or failed, and completed exactly when its score is above 70 |
| Verification.OnlyRiskCanFail | src/pages/Verification.tsx:79-80 | a step fails exactly when it is the risk step with score 70 |
| Verification.RiskFailsExactly | src/pages/Verification.tsx:115 | the risk step fails exactly for draws above 0.975 |
| Verification.RunningScore | src/pages/Verification.tsx:85-87 | the shown score is 0 with nothing completed, otherwise between the least and the greatest completed score |
| Verification.FinalScore | src/pages/Verification.tsx:93 | the final score lies between the least and the greatest step score |
| Verification.CompletedTotalBounds | src/pages/Verification.tsx:85-86 | completed scores in [lo, hi] total between `n * lo` and `n * hi` for `n` completed steps |
| Verification.RunningScoreBounds | src/pages/Verification.tsx:85-87 | the running score is 0 with nothing completed, otherwise within the bounds of the completed scores |
| Verification.MeanOfBoundedTotal | src/pages/Verification.tsx:86-87 | the rounded mean of values within integer bounds stays within them |
| Verification.CompletedAbovePassMark | src/pages/Verification.tsx:80-85 | every completed step scores above 70 |
| Verification.TotalBounds | src/pages/Verification.tsx:93 | scores within their ranges total within the sums of those ranges |
| Verification.KnownTotals | src/pages/Verification.tsx:112-117 | the four ranges sum to between 310 and 375 |
| Verification.FinalScoreRange | src/pages/Verification.tsx:93 | the final score of the four steps lies in [78, 94] |
| Verification.ScoredStep | src/pages/Verification.tsx:79-81 | a scored step keeps its id, has the status its score earns, and its score lies in the step's range |
| Verification.RunningScoreOfScoredSteps | src/pages/Verification.tsx:85-87 | when every completed step passes with at most 95, the shown score is 0 or in (70, 95] |
| Verification.FreshRunningScore | src/pages/Verification.tsx:85-87 | on a fresh list, the shown score averages only the steps scored so far |
| Verification.StaleStepsCount | src/pages/Verification.tsx:57-86 | on a re-run, steps completed by the previous run count: after rescoring the first step at 85, the page shows 83, where a fresh list shows 85 |
| Verification.StartVerification | src/pages/Verification.tsx:66-108 | from any list a run can start from, each step gets its scored status in turn; each shown score is the running mean over the whole list at that point, 0 or in (70, 95]; only the risk step can fail; the final score is in [78, 94]; the level is at least `verified` |

## Left out

- Event wiring: `startCapture` and the `setup*Capture` listener registration are left out. Each handler is modelled as the `Step` it triggers.
- Listener teardown is left out, because the code never removes its listeners.
- Floating point: numbers are mathematical reals and integers. IEEE rounding, NaN and infinities are not modelled. The two `|| 0` divisions by zero are written out as their results.
- `Math.sqrt` is left unspecified beyond being non-negative and zero exactly at zero. So no contract names a particular square root.
- Clocks and randomness are parameters. Each handler's `performance.now()`, `Date.now()` and `new Date()` reads are treated as one instant: a touch event's points share one timestamp, and a pattern's id, time and signature share one `now`.
- The `try`/`catch` around the primary cipher path (`src/utils/jlynCipher.ts:28-31`) is left out. Nothing on that path throws for a non-empty array of numbers.
- `PRESSURE_COEFFICIENT` and `VELOCITY_NORMALIZER` are left out, because they are never used.
- The navigation `type` argument and `getPatterns` are left out. The argument is never stored, and `getPatterns` only returns the list.
- The touch handler reads a missing `force` as 0, so it becomes 0.5. A `NaN` force is not modelled.
- `generateStepScore` draws four random numbers for its `baseScores` object literal. Only the draw of the selected step is modelled.
- `generateStepScore` is not modelled for ids inherited from `Object.prototype` such as `toString`, which would give `NaN`.
- Page rendering is left out, and so are the `setTimeout` delays, the `processing` display state, routing and the user context update. Only the resulting score, status and trust level are modelled.
- The other pages, components, the service worker and the fixture data are not part of this model.
- JlynCipher.CalculateTolerance: a character outside the Basic Multilingual Plane counts as one character, where `calculateTolerance` indexes and measures UTF-16 code units. Every signature the program produces is ASCII (`JlynCipher.AsciiSignature`), so the two agree on them. The same holds for `Text.Split` and `JlynCipher.EncryptChar`.
- Verification.StartVerification: a run that starts while another is still in progress is not modelled. Such a run would meet steps still marked `processing`. Each run is taken to start from a list that earlier runs left finished.
- BehavioralCapture.MouseScenario: states the number of values and not the velocities themselves (0.5, 0.25, 0.25), because the square root is unspecified.
- BehavioralCapture.Confidence: states the range and the special cases (no values, equal values, a negative mean, the unclamped region), not a numeric value for arbitrary data, because the square root is unspecified.
- JlynCipher.NormalizePatterns: states the sign and the order of the normalised values, not their magnitudes, because the standard deviation is unspecified.
- JlynCipher.DeterministicEncryption: its round trip is proved only for characters below 256. Only base-36 digits reach it from `generateSignature`.
