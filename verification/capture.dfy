/**
 The behavioural capture aggregator. It buffers key, pointer and touch samples,
 turns the last few of them into patterns, and exposes the overall confidence
 and signature. Every DOM event is a transition `Step` on an immutable
 `Capture` record. `performance.now()` is the `at` field of an event, and
 `Date.now()` is its `now` field.
 */
module BehavioralCapture {
  import opened Numeric
  import opened Text
  import opened JlynCipher

  /** `performance.now()`: milliseconds, never negative. */
  type Millis = r: real | 0.0 <= r

  datatype PatternKind = Keystroke | Mouse | Touch | Navigation

  /** `BehavioralPattern`; `createdAt` is the `Date.now()` of the analysis. */
  datatype Pattern = Pattern(
    id: string,
    kind: PatternKind,
    values: seq<real>,
    confidence: real,
    createdAt: nat,
    signature: string)

  datatype KeyPhase = Down | Up
  datatype KeySample = KeySample(key: string, at: Millis, phase: KeyPhase)

  datatype PointerKind = Move | Click
  datatype PointerSample = PointerSample(x: real, y: real, at: Millis, kind: PointerKind)

  datatype TouchSample = TouchSample(x: real, y: real, pressure: real, at: Millis)

  /** One touch point of a `touchstart`; a missing `force` is written 0. */
  datatype TouchPoint = TouchPoint(x: real, y: real, force: real)

  /** The four private collections of the aggregator. */
  datatype Capture = Capture(
    patterns: seq<Pattern>,
    keys: seq<KeySample>,
    pointer: seq<PointerSample>,
    touches: seq<TouchSample>)

  const Empty: Capture := Capture([], [], [], [])

  /** The inputs the aggregator reacts to; `Reset` is the `reset()` call. */
  datatype Event =
    | KeyDown(key: string, at: Millis)
    | KeyUp(key: string, at: Millis, now: nat)
    | PointerMove(x: real, y: real, at: Millis)
    | PointerClick(x: real, y: real, at: Millis, now: nat)
    | TouchStart(points: seq<TouchPoint>, at: Millis)
    | Navigate(at: Millis, now: nat)
    | Reset

  const KeyWindow: nat := 4
  const PointerWindow: nat := 5
  const NavigationConfidence: real := 0.8
  const NavigationPeriod: real := 1000.0
  const ConfidenceFloor: real := 0.3
  const ConfidenceCeiling: real := 1.0
  const DefaultPressure: real := 0.5

  function IdPrefix(kind: PatternKind): string
  {
    match kind
    case Keystroke => "keystroke_"
    case Mouse => "mouse_"
    case Touch => "touch_"
    case Navigation => "nav_"
  }

  // ---------------------------------------------------------------------------
  // calculateConfidence

  /** `Math.max(lo, Math.min(hi, x))`. */
  function Clamp(x: real, lo: real, hi: real): (r: real)
    requires lo <= hi
    ensures lo <= r <= hi
    ensures lo <= x <= hi ==> r == x
    ensures x < lo ==> r == lo
    ensures hi < x ==> r == hi
  {
    if x < lo then lo else if hi < x then hi else x
  }

  /** `max(0.3, min(1, 1 - (sd / mean || 0)))`. A zero mean with no spread
      divides 0 by 0; NaN becomes 0 and the result is 1. A zero mean with
      spread divides by zero to +Infinity, and the clamp gives 0.3. */
  function ConfidenceOf(mean: real, sd: real): (c: real)
    requires 0.0 <= sd
    ensures ConfidenceFloor <= c <= ConfidenceCeiling
  {
    if mean == 0.0 then (if sd == 0.0 then ConfidenceCeiling else ConfidenceFloor)
    else Clamp(1.0 - sd / mean, ConfidenceFloor, ConfidenceCeiling)
  }

  /** `calculateConfidence`: 0 for no values, otherwise clamped to [0.3, 1]. */
  function Confidence(v: seq<real>): (c: real)
    ensures |v| == 0 <==> c == 0.0
    ensures |v| > 0 ==> ConfidenceFloor <= c <= ConfidenceCeiling
  {
    if |v| == 0 then 0.0 else ConfidenceOf(Mean(v), StdDev(v))
  }

  /** Equal values are fully consistent, the zero mean included. */
  lemma ConfidenceOfConstant(v: seq<real>)
    requires |v| > 0
    requires forall i :: 0 <= i < |v| ==> v[i] == v[0]
    ensures Confidence(v) == 1.0
  {
    StdDevOfConstant(v);
  }

  /** A negative mean makes the ratio non-positive, so the clamp gives 1. */
  lemma ConfidenceNegativeMean(v: seq<real>)
    requires |v| > 0 && Mean(v) < 0.0
    ensures Confidence(v) == 1.0
  {
    var m := Mean(v);
    var sd := StdDev(v);
    assert sd / m <= 0.0 by {
      assert sd / m == -(sd / -m);
      assert 0.0 <= sd / -m;
    }
  }

  /** With a positive mean, more spread never raises the confidence. */
  lemma ConfidenceMonotone(mean: real, sd1: real, sd2: real)
    requires 0.0 < mean && 0.0 <= sd1 <= sd2
    ensures ConfidenceOf(mean, sd2) <= ConfidenceOf(mean, sd1)
  {
    DivideMonotone(sd1, sd2, mean);
  }

  /** Inside the clamp the confidence is exactly `1 - sd / mean`. */
  lemma ConfidenceUnclamped(mean: real, sd: real)
    requires 0.0 < mean && 0.0 <= sd <= 0.7 * mean
    ensures ConfidenceOf(mean, sd) == 1.0 - sd / mean
  {
    DivideMonotone(sd, 0.7 * mean, mean);
    assert (0.7 * mean) / mean == 0.7;
  }

  // ---------------------------------------------------------------------------
  // Pattern records

  /** A pattern stamped at `now`. Its values are never empty, so `generateSignature`
      never takes the fallback branch and never reads its random digits. */
  function NewPattern(kind: PatternKind, values: seq<real>, confidence: real, now: nat): (p: Pattern)
    requires |values| > 0
    ensures p.kind == kind && p.values == values && p.confidence == confidence && p.createdAt == now
    ensures StartsWith(p.id, IdPrefix(kind))
    ensures ValidateSignature(p.signature) && !IsFallback(p.signature)
    ensures Segment(p.signature, 1) == Payload(values)
  {
    var id := IdPrefix(kind) + ToRadix(now, 10);
    assert id[..|IdPrefix(kind)|] == IdPrefix(kind);
    Pattern(id, kind, values, confidence, now, GenerateSignature(values, now, ""))
  }

  /** What every stored pattern satisfies: some values, a clamped confidence,
      an id with the prefix of its kind, and a primary signature of its own values. */
  predicate WellFormed(p: Pattern)
  {
    && |p.values| > 0
    && ConfidenceFloor <= p.confidence <= ConfidenceCeiling
    && p.kind != Touch
    && StartsWith(p.id, IdPrefix(p.kind))
    && ValidateSignature(p.signature)
    && !IsFallback(p.signature)
    && Segment(p.signature, 1) == Payload(p.values)
  }

  predicate Valid(c: Capture)
  {
    forall i :: 0 <= i < |c.patterns| ==> WellFormed(c.patterns[i])
  }

  // ---------------------------------------------------------------------------
  // analyzeKeystrokePattern

  /** A key pressed and released at the next event. */
  predicate IsDwell(a: KeySample, b: KeySample)
  {
    a.phase == Down && b.phase == Up && a.key == b.key
  }

  /** A release followed, two events later, by a press. */
  predicate IsFlight(a: KeySample, b: KeySample)
  {
    a.phase == Up && b.phase == Down
  }

  /** The dwell times of `r` from index `i` on, in order. */
  function DwellFrom(r: seq<KeySample>, i: nat): (d: seq<real>)
    ensures |d| + i < |r| || |d| == 0
    decreases |r| - i
  {
    if i + 1 >= |r| then []
    else (if IsDwell(r[i], r[i + 1]) then [r[i + 1].at - r[i].at] else []) + DwellFrom(r, i + 1)
  }

  /** The flight times of `r` from index `i` on, in order. */
  function FlightFrom(r: seq<KeySample>, i: nat): (f: seq<real>)
    ensures |f| + i + 1 < |r| || |f| == 0
    decreases |r| - i
  {
    if i + 2 >= |r| then []
    else (if IsFlight(r[i], r[i + 2]) then [r[i + 2].at - r[i].at] else []) + FlightFrom(r, i + 1)
  }

  /** A value is a dwell time exactly when some adjacent down/up pair on one key produces it. */
  lemma {:induction false} DwellMembers(r: seq<KeySample>, i: nat, x: real)
    ensures x in DwellFrom(r, i) <==>
      exists j :: i <= j && j + 1 < |r| && IsDwell(r[j], r[j + 1]) && x == r[j + 1].at - r[j].at
    decreases |r| - i
  {
    if i + 1 < |r| {
      DwellMembers(r, i + 1, x);
      var head := if IsDwell(r[i], r[i + 1]) then [r[i + 1].at - r[i].at] else [];
      assert DwellFrom(r, i) == head + DwellFrom(r, i + 1);
      if x in head {
        assert IsDwell(r[i], r[i + 1]) && x == r[i + 1].at - r[i].at;
      }
    }
  }

  /** A value is a flight time exactly when some release two events before a press produces it. */
  lemma {:induction false} FlightMembers(r: seq<KeySample>, i: nat, x: real)
    ensures x in FlightFrom(r, i) <==>
      exists j :: i <= j && j + 2 < |r| && IsFlight(r[j], r[j + 2]) && x == r[j + 2].at - r[j].at
    decreases |r| - i
  {
    if i + 2 < |r| {
      FlightMembers(r, i + 1, x);
      var head := if IsFlight(r[i], r[i + 2]) then [r[i + 2].at - r[i].at] else [];
      assert FlightFrom(r, i) == head + FlightFrom(r, i + 1);
      if x in head {
        assert IsFlight(r[i], r[i + 2]) && x == r[i + 2].at - r[i].at;
      }
    }
  }

  /** The dwell times followed by the flight times. */
  function KeystrokeValues(r: seq<KeySample>): seq<real>
  {
    DwellFrom(r, 0) + FlightFrom(r, 0)
  }

  /** The two loops of `analyzeKeystrokePattern`, as written. */
  method KeystrokeIntervals(r: seq<KeySample>) returns (dwell: seq<real>, flight: seq<real>)
    ensures dwell == DwellFrom(r, 0)
    ensures flight == FlightFrom(r, 0)
  {
    dwell := [];
    var i := 0;
    while i < |r| - 1
      invariant 0 <= i <= Max(|r| - 1, 0)
      invariant dwell + DwellFrom(r, i) == DwellFrom(r, 0)
    {
      if r[i].phase == Down && r[i + 1].phase == Up && r[i].key == r[i + 1].key {
        dwell := dwell + [r[i + 1].at - r[i].at];
      }
      assert dwell + DwellFrom(r, i + 1) == DwellFrom(r, 0);
      i := i + 1;
    }
    flight := [];
    i := 0;
    while i < |r| - 2
      invariant 0 <= i <= Max(|r| - 2, 0)
      invariant flight + FlightFrom(r, i) == FlightFrom(r, 0)
    {
      if r[i].phase == Up && r[i + 2].phase == Down {
        flight := flight + [r[i + 2].at - r[i].at];
      }
      assert flight + FlightFrom(r, i + 1) == FlightFrom(r, 0);
      i := i + 1;
    }
  }

  /** `keystrokeData.slice(-4)`. */
  function KeyWindowOf(keys: seq<KeySample>): (w: seq<KeySample>)
    requires KeyWindow <= |keys|
    ensures |w| == KeyWindow
    ensures forall i :: 0 <= i < KeyWindow ==> w[i] == keys[|keys| - KeyWindow + i]
  {
    keys[|keys| - KeyWindow..]
  }

  /** `analyzeKeystrokePattern`: with at least four buffered key events, a pattern
      of the last four's dwell and flight times, if there are any. */
  function AnalyzeKeystrokes(c: Capture, now: nat): (d: Capture)
    ensures d.keys == c.keys && d.pointer == c.pointer && d.touches == c.touches
    ensures |c.keys| < KeyWindow ==> d == c
    ensures |d.patterns| == |c.patterns| + 1 <==>
      KeyWindow <= |c.keys| && |KeystrokeValues(KeyWindowOf(c.keys))| > 0
    ensures |c.patterns| <= |d.patterns| <= |c.patterns| + 1
    ensures d.patterns[..|c.patterns|] == c.patterns
    ensures |d.patterns| == |c.patterns| + 1 ==>
      d.patterns[|c.patterns|].kind == Keystroke &&
      d.patterns[|c.patterns|].values == KeystrokeValues(KeyWindowOf(c.keys)) &&
      d.patterns[|c.patterns|].confidence == Confidence(KeystrokeValues(KeyWindowOf(c.keys))) &&
      d.patterns[|c.patterns|].createdAt == now
  {
    if |c.keys| < KeyWindow then c
    else
      var values := KeystrokeValues(KeyWindowOf(c.keys));
      if |values| == 0 then c
      else c.(patterns := c.patterns + [NewPattern(Keystroke, values, Confidence(values), now)])
  }

  // ---------------------------------------------------------------------------
  // analyzeMousePattern

  /** Distance over elapsed time between two pointer samples. */
  function Speed(a: PointerSample, b: PointerSample): (v: real)
    requires a.at < b.at
    ensures 0.0 <= v
  {
    var dx := b.x - a.x;
    var dy := b.y - a.y;
    SquareNonNegative(dx);
    SquareNonNegative(dy);
    var dist := Sqrt(dx * dx + dy * dy);
    assert 0.0 <= dist / (b.at - a.at);
    dist / (b.at - a.at)
  }

  /** The velocities of `r` from index `i` on; pairs with no elapsed time are skipped. */
  function VelocitiesFrom(r: seq<PointerSample>, i: nat): (v: seq<real>)
    ensures |v| + i < |r| || |v| == 0
    ensures forall k :: 0 <= k < |v| ==> 0.0 <= v[k]
    decreases |r| - i
  {
    if i + 1 >= |r| then []
    else (if r[i].at < r[i + 1].at then [Speed(r[i], r[i + 1])] else []) + VelocitiesFrom(r, i + 1)
  }

  /** A value is a velocity exactly when some pair with time elapsing between them produces it. */
  lemma {:induction false} VelocityMembers(r: seq<PointerSample>, i: nat, x: real)
    ensures x in VelocitiesFrom(r, i) <==>
      exists j :: i <= j && j + 1 < |r| && r[j].at < r[j + 1].at && x == Speed(r[j], r[j + 1])
    decreases |r| - i
  {
    if i + 1 < |r| {
      VelocityMembers(r, i + 1, x);
      var head := if r[i].at < r[i + 1].at then [Speed(r[i], r[i + 1])] else [];
      assert VelocitiesFrom(r, i) == head + VelocitiesFrom(r, i + 1);
      if x in head {
        assert r[i].at < r[i + 1].at && x == Speed(r[i], r[i + 1]);
      }
    }
  }

  /** With time moving forward at every step, every pair gives a velocity, in order. */
  lemma {:induction false} VelocitiesAllMoving(r: seq<PointerSample>, i: nat)
    requires i < |r|
    requires forall k :: i <= k < |r| - 1 ==> r[k].at < r[k + 1].at
    ensures |VelocitiesFrom(r, i)| == |r| - 1 - i
    ensures forall k :: i <= k < |r| - 1 ==> VelocitiesFrom(r, i)[k - i] == Speed(r[k], r[k + 1])
    decreases |r| - i
  {
    if i + 1 < |r| {
      VelocitiesAllMoving(r, i + 1);
    }
  }

  /** A pointer that does not move has speed zero everywhere. */
  lemma {:induction false} StationaryPointer(r: seq<PointerSample>, i: nat)
    requires forall k :: 0 <= k < |r| ==> r[k].x == r[0].x && r[k].y == r[0].y
    ensures forall k :: 0 <= k < |VelocitiesFrom(r, i)| ==> VelocitiesFrom(r, i)[k] == 0.0
    decreases |r| - i
  {
    if i + 1 < |r| {
      StationaryPointer(r, i + 1);
      if r[i].at < r[i + 1].at {
        assert r[i + 1].x - r[i].x == 0.0 && r[i + 1].y - r[i].y == 0.0;
        assert Speed(r[i], r[i + 1]) == 0.0;
      }
    }
  }

  /** `Math.abs(v[i + 1] - v[i])` for every adjacent pair. */
  function Accelerations(v: seq<real>): (a: seq<real>)
    ensures |v| == 0 ==> |a| == 0
    ensures |v| > 0 ==> |a| == |v| - 1
    ensures forall i :: 0 <= i < |a| ==> 0.0 <= a[i]
  {
    if |v| == 0 then [] else seq(|v| - 1, i requires 0 <= i < |v| - 1 => Abs(v[i + 1] - v[i]))
  }

  /** A constant speed has no acceleration. */
  lemma ConstantSpeedNoAcceleration(v: seq<real>)
    requires forall i :: 0 <= i < |v| ==> v[i] == v[0]
    ensures forall i :: 0 <= i < |Accelerations(v)| ==> Accelerations(v)[i] == 0.0
  {
  }

  /** Each acceleration is the size of the change between neighbouring speeds. */
  lemma AccelerationMeasuresChange(v: seq<real>, i: nat)
    requires i + 1 < |v|
    ensures Accelerations(v)[i] == v[i + 1] - v[i] || Accelerations(v)[i] == v[i] - v[i + 1]
    ensures v[i] <= v[i + 1] ==> Accelerations(v)[i] == v[i + 1] - v[i]
  {
  }

  function MouseValues(r: seq<PointerSample>): seq<real>
  {
    var v := VelocitiesFrom(r, 0);
    v + Accelerations(v)
  }

  /** `mouseData.slice(-5)`. */
  function PointerWindowOf(pointer: seq<PointerSample>): (w: seq<PointerSample>)
    requires PointerWindow <= |pointer|
    ensures |w| == PointerWindow
    ensures forall i :: 0 <= i < PointerWindow ==> w[i] == pointer[|pointer| - PointerWindow + i]
  {
    pointer[|pointer| - PointerWindow..]
  }

  /** `analyzeMousePattern`: with at least five buffered pointer samples, a pattern
      of the last five's velocities and accelerations, if there is any velocity. */
  function AnalyzeMouse(c: Capture, now: nat): (d: Capture)
    ensures d.keys == c.keys && d.pointer == c.pointer && d.touches == c.touches
    ensures |c.pointer| < PointerWindow ==> d == c
    ensures |d.patterns| == |c.patterns| + 1 <==>
      PointerWindow <= |c.pointer| && |VelocitiesFrom(PointerWindowOf(c.pointer), 0)| > 0
    ensures |c.patterns| <= |d.patterns| <= |c.patterns| + 1
    ensures d.patterns[..|c.patterns|] == c.patterns
    ensures |d.patterns| == |c.patterns| + 1 ==>
      d.patterns[|c.patterns|].kind == Mouse &&
      d.patterns[|c.patterns|].values == MouseValues(PointerWindowOf(c.pointer)) &&
      d.patterns[|c.patterns|].confidence == Confidence(MouseValues(PointerWindowOf(c.pointer))) &&
      d.patterns[|c.patterns|].createdAt == now
  {
    if |c.pointer| < PointerWindow then c
    else
      var w := PointerWindowOf(c.pointer);
      var v := VelocitiesFrom(w, 0);
      if |v| == 0 then c
      else
        var values := v + Accelerations(v);
        c.(patterns := c.patterns + [NewPattern(Mouse, values, Confidence(values), now)])
  }

  // ---------------------------------------------------------------------------
  // recordNavigationPattern and the touch buffer

  /** `recordNavigationPattern`: one value, `timestamp % 1000`, at confidence 0.8. */
  function RecordNavigation(c: Capture, at: Millis, now: nat): (d: Capture)
    ensures d.keys == c.keys && d.pointer == c.pointer && d.touches == c.touches
    ensures |d.patterns| == |c.patterns| + 1 && d.patterns[..|c.patterns|] == c.patterns
    ensures d.patterns[|c.patterns|].kind == Navigation
    ensures d.patterns[|c.patterns|].values == [JsRemainder(at, NavigationPeriod)]
    ensures 0.0 <= d.patterns[|c.patterns|].values[0] < NavigationPeriod
    ensures d.patterns[|c.patterns|].confidence == NavigationConfidence
  {
    var p := NewPattern(Navigation, [JsRemainder(at, NavigationPeriod)], NavigationConfidence, now);
    c.(patterns := c.patterns + [p])
  }

  /** `force || 0.5`: a zero or missing force reads as 0.5. */
  function Pressure(force: real): (p: real)
    ensures p != 0.0
    ensures force != 0.0 ==> p == force
  {
    if force == 0.0 then DefaultPressure else force
  }

  /** The touch handler: one buffered sample per touch point, all at the same instant. */
  function RecordTouches(c: Capture, points: seq<TouchPoint>, at: Millis): (d: Capture)
    ensures d.patterns == c.patterns && d.keys == c.keys && d.pointer == c.pointer
    ensures |d.touches| == |c.touches| + |points|
    ensures d.touches[..|c.touches|] == c.touches
    ensures forall i :: 0 <= i < |points| ==>
      d.touches[|c.touches| + i].x == points[i].x &&
      d.touches[|c.touches| + i].y == points[i].y &&
      d.touches[|c.touches| + i].pressure == Pressure(points[i].force) &&
      d.touches[|c.touches| + i].at == at
  {
    c.(touches := c.touches + seq(|points|, i requires 0 <= i < |points| =>
      TouchSample(points[i].x, points[i].y, Pressure(points[i].force), at)))
  }

  // ---------------------------------------------------------------------------
  // Transitions

  /** The effect of one event on the aggregator: a reset empties it, any other
      event appends at most one pattern and keeps the others, and only a touch
      changes the touch buffer. */
  function Step(c: Capture, e: Event): (d: Capture)
    ensures e.Reset? ==> d == Empty
    ensures !e.Reset? ==> |c.patterns| <= |d.patterns| <= |c.patterns| + 1
    ensures !e.Reset? ==> d.patterns[..|c.patterns|] == c.patterns
    ensures !e.Reset? && !e.TouchStart? ==> d.touches == c.touches
    ensures e.TouchStart? ==> |d.touches| == |c.touches| + |e.points|
  {
    match e
    case KeyDown(key, at) => c.(keys := c.keys + [KeySample(key, at, Down)])
    case KeyUp(key, at, now) => AnalyzeKeystrokes(c.(keys := c.keys + [KeySample(key, at, Up)]), now)
    case PointerMove(x, y, at) => c.(pointer := c.pointer + [PointerSample(x, y, at, Move)])
    case PointerClick(x, y, at, now) => AnalyzeMouse(c.(pointer := c.pointer + [PointerSample(x, y, at, Click)]), now)
    case TouchStart(points, at) => RecordTouches(c, points, at)
    case Navigate(at, now) => RecordNavigation(c, at, now)
    case Reset => Empty
  }

  function Run(c: Capture, events: seq<Event>): Capture
    decreases |events|
  {
    if |events| == 0 then c else Run(Step(c, events[0]), events[1..])
  }

  /** Every pattern an event appends is well formed. */
  lemma StepPreservesValid(c: Capture, e: Event)
    requires Valid(c)
    ensures Valid(Step(c, e))
  {
    var d := Step(c, e);
    forall i | 0 <= i < |d.patterns|
      ensures WellFormed(d.patterns[i])
    {
      if i < |c.patterns| {
        assert d.patterns[i] == d.patterns[..|c.patterns|][i];
      }
    }
  }

  /** What one event does to the patterns: appends at most one, and only analyses do. */
  lemma StepAppendsOnly(c: Capture, e: Event)
    requires !e.Reset?
    ensures |c.patterns| <= |Step(c, e).patterns| <= |c.patterns| + 1
    ensures Step(c, e).patterns[..|c.patterns|] == c.patterns
    ensures e.KeyDown? || e.PointerMove? || e.TouchStart? ==> Step(c, e).patterns == c.patterns
    ensures e.Navigate? ==> |Step(c, e).patterns| == |c.patterns| + 1
  {
  }

  /** Keys and pointer samples are only ever appended. */
  lemma StepBuffers(c: Capture, e: Event)
    requires !e.Reset?
    ensures Step(c, e).keys == c.keys + (if e.KeyDown? then [KeySample(e.key, e.at, Down)]
                                         else if e.KeyUp? then [KeySample(e.key, e.at, Up)] else [])
    ensures Step(c, e).pointer == c.pointer + (if e.PointerMove? then [PointerSample(e.x, e.y, e.at, Move)]
                                               else if e.PointerClick? then [PointerSample(e.x, e.y, e.at, Click)] else [])
  {
  }

  /** `reset` empties all four collections. */
  lemma ResetEmpties(c: Capture)
    ensures Step(c, Reset).patterns == [] && Step(c, Reset).keys == []
    ensures Step(c, Reset).pointer == [] && Step(c, Reset).touches == []
  {
  }

  lemma {:induction false} RunPreservesValid(c: Capture, events: seq<Event>)
    requires Valid(c)
    ensures Valid(Run(c, events))
    decreases |events|
  {
    if |events| > 0 {
      StepPreservesValid(c, events[0]);
      RunPreservesValid(Step(c, events[0]), events[1..]);
    }
  }

  /** Without a reset, earlier patterns are never reordered or dropped. */
  lemma {:induction false} RunOnlyAppends(c: Capture, events: seq<Event>)
    requires forall i :: 0 <= i < |events| ==> !events[i].Reset?
    ensures |c.patterns| <= |Run(c, events).patterns|
    ensures Run(c, events).patterns[..|c.patterns|] == c.patterns
    decreases |events|
  {
    if |events| > 0 {
      var d := Step(c, events[0]);
      StepAppendsOnly(c, events[0]);
      RunOnlyAppends(d, events[1..]);
      assert Run(c, events).patterns[..|c.patterns|] == Run(d, events[1..]).patterns[..|d.patterns|][..|c.patterns|];
    }
  }

  /** Touch samples never turn into patterns. */
  lemma {:induction false} NoTouchPatterns(c: Capture, events: seq<Event>)
    requires Valid(c)
    ensures forall i :: 0 <= i < |Run(c, events).patterns| ==> Run(c, events).patterns[i].kind != Touch
  {
    RunPreservesValid(c, events);
  }

  // ---------------------------------------------------------------------------
  // getOverallConfidence and getSignature

  function Confidences(ps: seq<Pattern>): (cs: seq<real>)
    ensures |cs| == |ps|
    ensures forall i :: 0 <= i < |ps| ==> cs[i] == ps[i].confidence
  {
    seq(|ps|, i requires 0 <= i < |ps| => ps[i].confidence)
  }

  /** `getOverallConfidence`: the mean pattern confidence, or 0 with no patterns. */
  function OverallConfidence(c: Capture): (r: real)
    ensures |c.patterns| == 0 ==> r == 0.0
    ensures Valid(c) && |c.patterns| > 0 ==> ConfidenceFloor <= r <= ConfidenceCeiling
  {
    if |c.patterns| == 0 then 0.0
    else
      ValidConfidences(c);
      Mean(Confidences(c.patterns))
  }

  lemma ValidConfidences(c: Capture)
    requires |c.patterns| > 0
    ensures Valid(c) ==> ConfidenceFloor <= Mean(Confidences(c.patterns)) <= ConfidenceCeiling
  {
    if Valid(c) {
      MeanBounds(Confidences(c.patterns), ConfidenceFloor, ConfidenceCeiling);
    }
  }

  /** Two patterns at 0.5 and 0.9 average to 0.7. */
  lemma OverallConfidenceOfTwo(c: Capture)
    requires |c.patterns| == 2
    requires c.patterns[0].confidence == 0.5 && c.patterns[1].confidence == 0.9
    ensures OverallConfidence(c) == 0.7
  {
    var cs := Confidences(c.patterns);
    assert cs == [0.5, 0.9];
    assert cs[1..] == [0.9];
    assert cs[1..][1..] == [];
    assert Sum(cs[1..]) == 0.9;
    assert Sum(cs) == 1.4;
  }

  /** All pattern values, in the order the patterns were created. */
  function Flatten(ps: seq<Pattern>): seq<real>
  {
    if |ps| == 0 then [] else Flatten(ps[..|ps| - 1]) + ps[|ps| - 1].values
  }

  lemma {:induction false} FlattenAppend(ps: seq<Pattern>, qs: seq<Pattern>)
    ensures Flatten(ps + qs) == Flatten(ps) + Flatten(qs)
    decreases |qs|
  {
    if |qs| == 0 {
      assert ps + qs == ps;
    } else {
      var n := |qs| - 1;
      assert (ps + qs)[..|ps + qs| - 1] == ps + qs[..n];
      FlattenAppend(ps, qs[..n]);
    }
  }

  /** Under `Valid`, the flattened values are empty exactly when there are no patterns. */
  lemma {:induction false} FlattenEmpty(ps: seq<Pattern>)
    requires forall i :: 0 <= i < |ps| ==> |ps[i].values| > 0
    ensures |Flatten(ps)| == 0 <==> |ps| == 0
    ensures |ps| <= |Flatten(ps)|
  {
    if |ps| > 0 {
      FlattenEmpty(ps[..|ps| - 1]);
    }
  }

  /** `getSignature`: the signature of every value captured so far. */
  function Signature(c: Capture, now: nat, random: string): (sig: string)
    ensures ValidateSignature(sig)
    ensures Valid(c) ==> (IsFallback(sig) <==> |c.patterns| == 0)
  {
    ValidFlatten(c);
    GenerateSignature(Flatten(c.patterns), now, random)
  }

  lemma ValidFlatten(c: Capture)
    ensures Valid(c) ==> (|Flatten(c.patterns)| == 0 <==> |c.patterns| == 0)
  {
    if Valid(c) {
      FlattenEmpty(c.patterns);
    }
  }

  /** A later pattern extends the signed values: what was signed before is a prefix. */
  lemma SignatureGrows(c: Capture, e: Event)
    requires !e.Reset?
    ensures Flatten(c.patterns) <= Flatten(Step(c, e).patterns)
  {
    var d := Step(c, e);
    StepAppendsOnly(c, e);
    var extra := d.patterns[|c.patterns|..];
    assert d.patterns == c.patterns + extra;
    FlattenAppend(c.patterns, extra);
  }

  // ---------------------------------------------------------------------------
  // Worked scenarios

  /** Running four events is four steps. */
  lemma RunFour(c: Capture, e0: Event, e1: Event, e2: Event, e3: Event)
    ensures Run(c, [e0, e1, e2, e3]) == Step(Step(Step(Step(c, e0), e1), e2), e3)
  {
    RunSnoc(c, [], e0);
    assert [] + [e0] == [e0];
    RunSnoc(c, [e0], e1);
    assert [e0] + [e1] == [e0, e1];
    RunSnoc(c, [e0, e1], e2);
    assert [e0, e1] + [e2] == [e0, e1, e2];
    RunSnoc(c, [e0, e1, e2], e3);
    assert [e0, e1, e2] + [e3] == [e0, e1, e2, e3];
  }

  /** Down `a` at 0, up `a` at 80, down `b` at 150, up `b` at 210: dwell times 80
      and 60, and no flight time, because the event two after `a`'s release is a release. */
  lemma KeystrokeScenario(now: nat)
    ensures var c := Run(Empty, [KeyDown("a", 0.0), KeyUp("a", 80.0, now), KeyDown("b", 150.0), KeyUp("b", 210.0, now)]);
      |c.patterns| == 1 && c.patterns[0].kind == Keystroke && c.patterns[0].values == [80.0, 60.0]
  {
    RunFour(Empty, KeyDown("a", 0.0), KeyUp("a", 80.0, now), KeyDown("b", 150.0), KeyUp("b", 210.0, now));
    var r := [KeySample("a", 0.0, Down), KeySample("a", 80.0, Up), KeySample("b", 150.0, Down), KeySample("b", 210.0, Up)];
    KeystrokePrefix(now, r);
    KeystrokeLast(now, r);
  }

  /** The last release sees a full window. */
  lemma KeystrokeLast(now: nat, r: seq<KeySample>)
    requires r == [KeySample("a", 0.0, Down), KeySample("a", 80.0, Up), KeySample("b", 150.0, Down), KeySample("b", 210.0, Up)]
    ensures var c := Step(Capture([], r[..3], [], []), KeyUp("b", 210.0, now));
      |c.patterns| == 1 && c.patterns[0].kind == Keystroke && c.patterns[0].values == [80.0, 60.0]
  {
    var c3 := Capture([], r[..3], [], []);
    assert r[..3] + [KeySample("b", 210.0, Up)] == r;
    var full := c3.(keys := r);
    assert Step(c3, KeyUp("b", 210.0, now)) == AnalyzeKeystrokes(full, now);
    KeystrokeWindow(r);
    assert KeystrokeValues(KeyWindowOf(full.keys)) == [80.0, 60.0];
  }

  /** The first three key events of the scenario only fill the buffer. */
  lemma KeystrokePrefix(now: nat, r: seq<KeySample>)
    requires r == [KeySample("a", 0.0, Down), KeySample("a", 80.0, Up), KeySample("b", 150.0, Down), KeySample("b", 210.0, Up)]
    ensures Step(Step(Step(Empty, KeyDown("a", 0.0)), KeyUp("a", 80.0, now)), KeyDown("b", 150.0)) == Capture([], r[..3], [], [])
  {
    var c1 := Step(Empty, KeyDown("a", 0.0));
    assert c1 == Capture([], r[..1], [], []);
    assert r[..1] + [KeySample("a", 80.0, Up)] == r[..2];
    var c2 := Step(c1, KeyUp("a", 80.0, now));
    assert c2 == Capture([], r[..2], [], []);
    assert r[..2] + [KeySample("b", 150.0, Down)] == r[..3];
  }

  /** The window of the keystroke scenario. */
  lemma KeystrokeWindow(r: seq<KeySample>)
    requires r == [KeySample("a", 0.0, Down), KeySample("a", 80.0, Up), KeySample("b", 150.0, Down), KeySample("b", 210.0, Up)]
    ensures KeyWindowOf(r) == r
    ensures KeystrokeValues(r) == [80.0, 60.0]
  {
    assert DwellFrom(r, 3) == [];
    assert DwellFrom(r, 2) == [60.0];
    assert DwellFrom(r, 1) == [60.0];
    assert DwellFrom(r, 0) == [80.0, 60.0];
    assert FlightFrom(r, 2) == [];
    assert FlightFrom(r, 1) == [];
    assert FlightFrom(r, 0) == [];
  }

  /** Running one more event is one more step. */
  lemma {:induction false} RunSnoc(c: Capture, events: seq<Event>, e: Event)
    ensures Run(c, events + [e]) == Step(Run(c, events), e)
    decreases |events|
  {
    if |events| == 0 {
      assert [e][1..] == [];
    } else {
      assert (events + [e])[1..] == events[1..] + [e];
      RunSnoc(Step(c, events[0]), events[1..], e);
    }
  }

  /** Four moves and a click, with one zero-duration step: three velocities and two accelerations. */
  lemma MouseScenario(now: nat)
    ensures var c := Run(Empty, [PointerMove(0.0, 0.0, 0.0), PointerMove(3.0, 4.0, 10.0), PointerMove(3.0, 4.0, 10.0),
                                 PointerMove(6.0, 8.0, 30.0), PointerClick(9.0, 12.0, 50.0, now)]);
      |c.patterns| == 1 && c.patterns[0].kind == Mouse && |c.patterns[0].values| == 5
  {
    var e0, e1, e2, e3, e4 := PointerMove(0.0, 0.0, 0.0), PointerMove(3.0, 4.0, 10.0), PointerMove(3.0, 4.0, 10.0),
                              PointerMove(6.0, 8.0, 30.0), PointerClick(9.0, 12.0, 50.0, now);
    var r := [PointerSample(0.0, 0.0, 0.0, Move), PointerSample(3.0, 4.0, 10.0, Move), PointerSample(3.0, 4.0, 10.0, Move),
              PointerSample(6.0, 8.0, 30.0, Move), PointerSample(9.0, 12.0, 50.0, Click)];
    RunFour(Empty, e0, e1, e2, e3);
    RunSnoc(Empty, [e0, e1, e2, e3], e4);
    assert [e0, e1, e2, e3] + [e4] == [e0, e1, e2, e3, e4];
    MousePrefix(r);
    MouseWindow(r);
    assert r[..4] + [PointerSample(9.0, 12.0, 50.0, Click)] == r;
  }

  /** The four moves of the scenario only fill the buffer. */
  lemma MousePrefix(r: seq<PointerSample>)
    requires r == [PointerSample(0.0, 0.0, 0.0, Move), PointerSample(3.0, 4.0, 10.0, Move), PointerSample(3.0, 4.0, 10.0, Move),
                   PointerSample(6.0, 8.0, 30.0, Move), PointerSample(9.0, 12.0, 50.0, Click)]
    ensures Step(Step(Step(Step(Empty, PointerMove(0.0, 0.0, 0.0)), PointerMove(3.0, 4.0, 10.0)), PointerMove(3.0, 4.0, 10.0)),
                 PointerMove(6.0, 8.0, 30.0)) == Capture([], [], r[..4], [])
  {
    assert [] + [r[0]] == r[..1];
    assert r[..1] + [r[1]] == r[..2];
    assert r[..2] + [r[2]] == r[..3];
    assert r[..3] + [r[3]] == r[..4];
  }

  /** The window of the pointer scenario. */
  lemma MouseWindow(r: seq<PointerSample>)
    requires r == [PointerSample(0.0, 0.0, 0.0, Move), PointerSample(3.0, 4.0, 10.0, Move), PointerSample(3.0, 4.0, 10.0, Move),
                   PointerSample(6.0, 8.0, 30.0, Move), PointerSample(9.0, 12.0, 50.0, Click)]
    ensures PointerWindowOf(r) == r
    ensures |VelocitiesFrom(r, 0)| == 3
    ensures |MouseValues(r)| == 5
  {
    assert |VelocitiesFrom(r, 4)| == 0;
    assert |VelocitiesFrom(r, 3)| == 1;
    assert |VelocitiesFrom(r, 2)| == 2;
    assert |VelocitiesFrom(r, 1)| == 2;
    assert |VelocitiesFrom(r, 0)| == 3;
  }
}
