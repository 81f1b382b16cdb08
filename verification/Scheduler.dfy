/**
 The depth scheduler: a step function over a depth and three counters packed into 32 bits.

 The step counter wraps at 2^16, the step of the last depth change is kept modulo 2^8, and the
 miss streak saturates at 255.
 */
module Scheduler {
  const PROBE_INTERVAL := 64
  const HYSTERESIS_STEPS := 32
  const STARVATION_STEPS := 96
  const MAX_DEPTH := 16

  // ----- Signals -----

  /** An f32 signal: a finite value, or one of the infinities and NaNs. */
  datatype Signal = Finite(value: real) | NonFinite

  datatype Input = Input(acceptance: Signal, entropy: Signal, tps: Signal, reuse: Signal, ready: int)

  function SanitizeUnit(v: Signal, default: real): (r: real)
    requires 0.0 <= default <= 1.0
    ensures 0.0 <= r <= 1.0
  {
    match v
    case NonFinite => default
    case Finite(x) => if x < 0.0 then 0.0 else if x > 1.0 then 1.0 else x
  }

  function Sanitize(v: Signal, default: real): real {
    if v.Finite? then v.value else default
  }

  function Clamp(v: int, lo: int, hi: int): int {
    if hi < lo then lo else if v < lo then lo else if v > hi then hi else v
  }

  datatype Lane = SpecHit | Hit | Miss

  function Classify(acceptance: real, entropy: real, tps: real, reuse: real): Lane {
    var replayLocal := reuse >= 0.70;
    var stableDecode := acceptance >= 0.78 && entropy <= 0.58 && tps >= -0.05;
    if replayLocal && stableDecode then SpecHit
    else if replayLocal || (acceptance >= 0.68 && entropy <= 0.68) then Hit
    else Miss
  }

  // ----- Packed counters -----

  datatype Counters = Counters(step: nat, lastChange: nat, missStreak: nat)

  ghost predicate InRange(c: Counters) {
    c.step < 0x1_0000 && c.lastChange < 0x100 && c.missStreak < 0x100
  }

  /** The three fields of an unsigned 32-bit word. */
  function Parts(raw: nat): (c: Counters)
    ensures InRange(c)
  {
    Counters(raw % 0x1_0000, raw / 0x1_0000 % 0x100, raw / 0x100_0000 % 0x100)
  }

  /** The 32-bit word holding three fields, each cut to its width. */
  function Word(c: Counters): (raw: nat)
    ensures raw < 0x1_0000_0000
  {
    c.missStreak % 0x100 * 0x100_0000 + c.lastChange % 0x100 * 0x1_0000 + c.step % 0x1_0000
  }

  /** A 32-bit word reinterpreted as a c_int. */
  function AsCInt(raw: nat): int
    requires raw < 0x1_0000_0000
  {
    if raw >= 0x8000_0000 then raw - 0x1_0000_0000 else raw
  }

  function AsWord(v: int): (raw: nat)
    ensures raw < 0x1_0000_0000
  {
    v % 0x1_0000_0000
  }

  /** unpack_counters */
  function Unpack(v: int): Counters {
    Parts(AsWord(v))
  }

  /** pack_counters */
  function Pack(c: Counters): int {
    AsCInt(Word(c))
  }

  lemma PartsWord(c: Counters)
    requires InRange(c)
    ensures Parts(Word(c)) == c
  {
    var high := c.missStreak * 0x100 + c.lastChange;
    assert Word(c) == high * 0x1_0000 + c.step;
    PartsOf(Word(c), c);
  }

  lemma PartsOf(raw: nat, c: Counters)
    requires InRange(c) && raw == (c.missStreak * 0x100 + c.lastChange) * 0x1_0000 + c.step
    ensures Parts(raw) == c
  {
    SplitWord(raw, c.missStreak * 0x100 + c.lastChange, c.step);
  }

  lemma SplitWord(raw: nat, high: nat, low: nat)
    requires raw == high * 0x1_0000 + low && low < 0x1_0000
    ensures raw % 0x1_0000 == low && raw / 0x1_0000 == high && raw / 0x100_0000 == high / 0x100
  {
  }

  lemma WordParts(raw: nat)
    requires raw < 0x1_0000_0000
    ensures Word(Parts(raw)) == raw
  {
    var high := raw / 0x1_0000;
    assert raw / 0x100_0000 == high / 0x100 < 0x100;
  }

  /** Counters in range survive the trip through the caller's int, and so does every int. */
  lemma UnpackPack(c: Counters, v: int)
    requires InRange(c) && -0x8000_0000 <= v < 0x8000_0000
    ensures Unpack(Pack(c)) == c
    ensures Pack(Unpack(v)) == v
  {
    PartsWord(c);
    CIntRoundTrip(Word(c), v);
    WordParts(AsWord(v));
  }

  lemma CIntRoundTrip(raw: nat, v: int)
    requires raw < 0x1_0000_0000 && -0x8000_0000 <= v < 0x8000_0000
    ensures AsWord(AsCInt(raw)) == raw
    ensures AsCInt(AsWord(v)) == v
  {
  }

  // ----- One step -----

  /** The caller-owned struct. */
  datatype State = State(depth: int, packed: int, ready: int)

  /** The depth and the counters a ready step works on. */
  datatype Core = Core(depth: int, counters: Counters)

  function Unfold(s: State): Core {
    Core(s.depth, Unpack(s.packed))
  }

  datatype Output = Output(depth: int, stability: real, throttle: int)

  /** What a lane asks for: a depth, whether it overrides hysteresis, and the new miss streak. */
  datatype Wish = Wish(depth: int, forceDown: bool, missStreak: nat)

  function SpecHitWish(depth: int, acceptance: real, entropy: real, tps: real): Wish {
    if acceptance >= 0.90 && entropy <= 0.45 && tps >= -0.02 then Wish(depth + 2, false, 0)
    else if acceptance >= 0.80 && entropy <= 0.58 && tps >= -0.05 then Wish(depth + 1, false, 0)
    else if acceptance < 0.62 || entropy > 0.82 || tps < -0.15 then
      Wish(if depth - 2 < 2 then 2 else depth - 2, true, 0)
    else Wish(depth, false, 0)
  }

  function HitWish(depth: int, acceptance: real, entropy: real, tps: real): Wish {
    if acceptance >= 0.82 && entropy <= 0.62 && tps >= -0.03 then Wish(depth + 1, false, 0)
    else if acceptance < 0.58 || entropy > 0.84 || tps < -0.14 then
      Wish(if depth - 1 < 2 then 2 else depth - 1, true, 0)
    else Wish(depth, false, 0)
  }

  function MissWish(depth: int, acceptance: real, entropy: real, tps: real, streak: nat): Wish {
    if streak >= STARVATION_STEPS && acceptance >= 0.60 && entropy <= 0.70 then Wish(3, true, 0)
    else if acceptance < 0.50 || entropy > 0.85 || tps < -0.10 then Wish(2, true, streak)
    else Wish(if depth < 3 then depth else 3, true, streak)
  }

  function LaneCap(lane: Lane): int {
    match lane
    case SpecHit => 16
    case Hit => 12
    case Miss => 3
  }

  function Throttle(lane: Lane): int {
    match lane
    case SpecHit => 3
    case Hit => 2
    case Miss => 1
  }

  /** Everything a baseline-ready step decides before hysteresis. */
  datatype Decision = Decision(depth: int, probed: bool, forceDown: bool, step: nat, missStreak: nat,
                               lane: Lane)

  function LaneOf(i: Input): Lane {
    Classify(SanitizeUnit(i.acceptance, 0.0), SanitizeUnit(i.entropy, 1.0), Sanitize(i.tps, 0.0),
             SanitizeUnit(i.reuse, 0.0))
  }

  function LaneWish(lane: Lane, depth: int, acceptance: real, entropy: real, tps: real, streak: nat): Wish {
    match lane
    case SpecHit => SpecHitWish(depth, acceptance, entropy, tps)
    case Hit => HitWish(depth, acceptance, entropy, tps)
    case Miss => MissWish(depth, acceptance, entropy, tps, if streak + 1 < 255 then streak + 1 else 255)
  }

  function Decide(s: Core, i: Input): Decision {
    var c := s.counters;
    var step := (c.step + 1) % 0x1_0000;
    var lane := LaneOf(i);
    var w := LaneWish(lane, Clamp(s.depth, 1, MAX_DEPTH), SanitizeUnit(i.acceptance, 0.0),
                      SanitizeUnit(i.entropy, 1.0), Sanitize(i.tps, 0.0), c.missStreak);
    var depth := Clamp(w.depth, 1, LaneCap(lane));
    var probed := depth == 1 && step % PROBE_INTERVAL == 0 && Sanitize(i.tps, 0.0) >= 0.0;
    Decision(Clamp(if probed then 2 else depth, 1, MAX_DEPTH), probed, !probed && w.forceDown, step,
             w.missStreak, lane)
  }

  /** Steps since the last change, as the 8-bit counters see it. */
  function Age(step: nat, lastChange: nat): nat {
    (step - lastChange) % 0x100
  }

  /** Hysteresis holds the depth back. */
  predicate Blocked(s: Core, d: Decision) {
    && d.depth != s.depth && !d.probed && !d.forceDown
    && Age(d.step, s.counters.lastChange) < HYSTERESIS_STEPS
  }

  function ReadyStep(s: Core, i: Input): Core {
    var d := Decide(s, i);
    var blocked := Blocked(s, d);
    var lastChange := if d.depth != s.depth && !blocked then d.step % 0x100 else s.counters.lastChange;
    Core(if blocked then s.depth else d.depth, Counters(d.step, lastChange, d.missStreak))
  }

  function Step(s: State, i: Input): State {
    if i.ready == 0 then State(1, s.packed, 0)
    else
      var k := ReadyStep(Unfold(s), i);
      State(k.depth, Pack(k.counters), 1)
  }

  /** Packing loses nothing: the struct steps exactly as the depth and counters it stands for. */
  lemma StepUnfolds(s: State, i: Input)
    requires i.ready != 0
    ensures Unfold(Step(s, i)) == ReadyStep(Unfold(s), i)
  {
    StreakInRange(Unfold(s), i);
    UnpackPack(ReadyStep(Unfold(s), i).counters, 0);
  }

  lemma StreakInRange(s: Core, i: Input)
    requires InRange(s.counters)
    ensures InRange(ReadyStep(s, i).counters)
  {
  }

  /** schedule_step on the caller-owned state. */
  class SchedulerState {
    var speculativeDepth: int
    var batchSize: int        // the packed counters
    var baselineReady: int

    ghost function View(): State
      reads this
    {
      State(speculativeDepth, batchSize, baselineReady)
    }

    method ScheduleStep(input: Input) returns (out: Output)
      modifies this
      ensures View() == Step(old(View()), input)
      ensures out.depth == View().depth
      ensures 0.0 <= out.stability <= 1.0
      ensures out.stability == if input.ready == 0 then 0.0
                               else Stability(SanitizeUnit(input.acceptance, 0.0), SanitizeUnit(input.entropy, 1.0))
      ensures out.throttle == if input.ready == 0 || LaneOf(input) == Miss then 1
                              else if LaneOf(input) == Hit then 2 else 3
    {
      baselineReady := if input.ready != 0 then 1 else 0;
      if baselineReady == 0 {
        speculativeDepth := 1;
        return Output(1, 0.0, 1);
      }
      var acceptance := SanitizeUnit(input.acceptance, 0.0);
      var entropy := SanitizeUnit(input.entropy, 1.0);
      var tps := Sanitize(input.tps, 0.0);
      var reuse := SanitizeUnit(input.reuse, 0.0);
      var c := Unpack(batchSize);
      var step, lastChange := (c.step + 1) % 0x1_0000, c.lastChange;
      var lane := Classify(acceptance, entropy, tps, reuse);
      var depth, forceDown, missStreak :=
        FollowLane(lane, Clamp(speculativeDepth, 1, MAX_DEPTH), acceptance, entropy, tps, c.missStreak);
      depth := Clamp(depth, 1, LaneCap(lane));
      var probed := false;
      if depth == 1 && step % PROBE_INTERVAL == 0 && tps >= 0.0 {
        depth := 2;
        probed := true;
        forceDown := false;
      }
      depth := Clamp(depth, 1, MAX_DEPTH);
      if depth != speculativeDepth {
        var step8 := step % 0x100;
        var delta := (step8 - lastChange) % 0x100;
        SubMod(step, lastChange);
        if !probed && !forceDown && delta < HYSTERESIS_STEPS {
          depth := speculativeDepth;
        } else {
          lastChange := step8;
        }
      }
      speculativeDepth := depth;
      batchSize := Pack(Counters(step, lastChange, missStreak));
      out := Output(depth, Stability(acceptance, entropy), Throttle(lane));
    }
  }

  lemma SubMod(x: int, y: int)
    ensures (x % 0x100 - y) % 0x100 == (x - y) % 0x100
  {
    var q := x / 0x100;
    assert x - y == (x % 0x100 - y) + q * 0x100;
  }

  /** The lane arms of schedule_step. */
  method FollowLane(lane: Lane, depth0: int, acceptance: real, entropy: real, tps: real, streak: nat)
    returns (depth: int, forceDown: bool, missStreak: nat)
    ensures Wish(depth, forceDown, missStreak) == LaneWish(lane, depth0, acceptance, entropy, tps, streak)
  {
    depth, forceDown := depth0, false;
    if lane == Miss {
      missStreak := if streak + 1 < 255 then streak + 1 else 255;
    } else {
      missStreak := 0;
    }
    match lane {
      case SpecHit =>
        if acceptance >= 0.90 && entropy <= 0.45 && tps >= -0.02 {
          depth := depth + 2;
        } else if acceptance >= 0.80 && entropy <= 0.58 && tps >= -0.05 {
          depth := depth + 1;
        } else if acceptance < 0.62 || entropy > 0.82 || tps < -0.15 {
          depth := if depth - 2 < 2 then 2 else depth - 2;
          forceDown := true;
        }
      case Hit =>
        if acceptance >= 0.82 && entropy <= 0.62 && tps >= -0.03 {
          depth := depth + 1;
        } else if acceptance < 0.58 || entropy > 0.84 || tps < -0.14 {
          depth := if depth - 1 < 2 then 2 else depth - 1;
          forceDown := true;
        }
      case Miss =>
        if acceptance < 0.50 || entropy > 0.85 || tps < -0.10 {
          depth := 2;
        } else {
          depth := if depth < 3 then depth else 3;
        }
        if missStreak >= STARVATION_STEPS && acceptance >= 0.60 && entropy <= 0.70 {
          depth := 3;
          missStreak := 0;
        }
        forceDown := true;
    }
  }

  function Stability(acceptance: real, entropy: real): (r: real)
    ensures 0.0 <= r <= 1.0
  {
    var r := acceptance * (1.0 - entropy);
    if r < 0.0 then 0.0 else if r > 1.0 then 1.0 else r
  }

  /** The share of acceptance that is certain: for signals in 0..1 the clamp does nothing. */
  lemma StabilityIs(acceptance: real, entropy: real)
    requires 0.0 <= acceptance <= 1.0 && 0.0 <= entropy <= 1.0
    ensures Stability(acceptance, entropy) == acceptance * (1.0 - entropy)
  {
  }

  // ----- Properties of one step -----

  /** A step goes out of its way: it probes, or its lane forces the depth. */
  predicate Overrides(d: Decision) {
    d.probed || d.forceDown
  }

  predicate InDepthRange(depth: int) {
    1 <= depth <= MAX_DEPTH
  }

  /**
   A ready step returns a depth in 1..16 exactly when hysteresis does not hand back a depth
   that was out of range to begin with.
   */
  lemma DepthRange(s: Core, i: Input)
    ensures InDepthRange(ReadyStep(s, i).depth) <==> InDepthRange(s.depth) || !Blocked(s, Decide(s, i))
  {
  }

  /** A zero-initialised state, which the C interface allows, can come back with depth 0. */
  lemma ZeroDepthPassesThrough()
    ensures Step(State(0, 0, 0), Input(Finite(0.7), Finite(0.5), Finite(0.0), Finite(0.0), 1)).depth == 0
  {
    var i := Input(Finite(0.7), Finite(0.5), Finite(0.0), Finite(0.0), 1);
    var s := Core(0, Counters(0, 0, 0));
    assert Unfold(State(0, 0, 0)) == s;
    assert LaneOf(i) == Hit;
    assert Decide(s, i) == Decision(1, false, false, 1, 0, Hit);
  }

  /** On the MISS lane the depth is at most 3, whatever it was before. */
  lemma MissIsCapped(s: Core, i: Input)
    requires LaneOf(i) == Miss
    ensures 1 <= ReadyStep(s, i).depth <= 3
  {
  }

  /** The SPEC_HIT lane never forces the depth, and never lowers one that is in range. */
  lemma SpecHitNeverForcedDown(s: Core, i: Input)
    requires LaneOf(i) == SpecHit && InDepthRange(s.depth)
    ensures !Decide(s, i).forceDown
    ensures ReadyStep(s, i).depth >= s.depth
  {
  }

  /** The step counter advances, and the last change is recorded exactly when the depth moves. */
  lemma CountersAdvance(s: Core, i: Input)
    ensures var c, c' := s.counters, ReadyStep(s, i).counters;
            && c'.step == (c.step + 1) % 0x1_0000
            && c'.lastChange == if ReadyStep(s, i).depth != s.depth then c'.step % 0x100 else c.lastChange
  {
  }

  /** A change that overrides nothing is never recent. */
  lemma FreeChange(s: Core, i: Input)
    requires ReadyStep(s, i).depth != s.depth && !Overrides(Decide(s, i))
    ensures Age((s.counters.step + 1) % 0x1_0000, s.counters.lastChange) >= HYSTERESIS_STEPS
  {
  }

  /** A probe step from depth 1 can only fail because a larger wish was held back as too recent. */
  lemma ProbeStep(s: Core, i: Input)
    requires s.depth == 1 && Sanitize(i.tps, 0.0) >= 0.0
    requires (s.counters.step + 1) % 0x1_0000 % 64 == 0 && ReadyStep(s, i).depth < 2
    ensures Age((s.counters.step + 1) % 0x1_0000, s.counters.lastChange) < HYSTERESIS_STEPS
  {
  }

  // ----- Runs -----

  /** The struct after the first n of a list of inputs. */
  function Run(s: State, inputs: seq<Input>, n: nat): State
    requires n <= |inputs|
  {
    if n == 0 then s else Step(Run(s, inputs, n - 1), inputs[n - 1])
  }

  /** The same run on the depth and counters alone. */
  function CoreRun(s: Core, inputs: seq<Input>, n: nat): Core
    requires n <= |inputs|
  {
    if n == 0 then s else ReadyStep(CoreRun(s, inputs, n - 1), inputs[n - 1])
  }

  ghost predicate AllReady(inputs: seq<Input>) {
    forall k :: 0 <= k < |inputs| ==> inputs[k].ready != 0
  }

  lemma {:induction false} RunUnfolds(s: State, inputs: seq<Input>, n: nat)
    requires AllReady(inputs) && n <= |inputs|
    ensures Unfold(Run(s, inputs, n)) == CoreRun(Unfold(s), inputs, n)
  {
    if n > 0 {
      RunUnfolds(s, inputs, n - 1);
      StepUnfolds(Run(s, inputs, n - 1), inputs[n - 1]);
    }
  }

  /** The depth stays in 1..16 over every run that starts there, whether or not its steps are ready. */
  lemma {:induction false} DepthRangeOverRuns(s: State, inputs: seq<Input>, n: nat)
    requires InDepthRange(s.depth) && n <= |inputs|
    ensures InDepthRange(Run(s, inputs, n).depth)
  {
    if n > 0 {
      DepthRangeOverRuns(s, inputs, n - 1);
      DepthRange(Unfold(Run(s, inputs, n - 1)), inputs[n - 1]);
    }
  }

  /** The step counter after n steps. */
  lemma {:induction false} StepCounter(s: Core, inputs: seq<Input>, n: nat)
    requires n <= |inputs| && s.counters.step < 0x1_0000
    ensures CoreRun(s, inputs, n).counters.step == (s.counters.step + n) % 0x1_0000
  {
    if n > 0 {
      StepCounter(s, inputs, n - 1);
      CountersAdvance(CoreRun(s, inputs, n - 1), inputs[n - 1]);
      ModNext(s.counters.step + n - 1);
    }
  }

  lemma ModNext(x: int)
    ensures (x % 0x1_0000 + 1) % 0x1_0000 == (x + 1) % 0x1_0000
  {
  }

  lemma ModMod(x: int)
    ensures x % 0x1_0000 % 64 == x % 64
  {
  }

  /** Step k of a run changes the depth. */
  predicate ChangesAt(s: Core, inputs: seq<Input>, k: nat)
    requires k < |inputs|
  {
    CoreRun(s, inputs, k + 1).depth != CoreRun(s, inputs, k).depth
  }

  function AgeOf(s: Core): nat {
    Age(s.counters.step, s.counters.lastChange)
  }

  /** The wrap of the step counter does not disturb the age. */
  lemma AgeWraps(x: nat, last: nat)
    ensures Age(x % 0x1_0000, last) == Age(x, last)
  {
    var q := x / 0x1_0000;
    assert x - last == (x % 0x1_0000 - last) + q * 0x100 * 0x100;
  }

  lemma AgeNext(step: nat, last: nat)
    ensures Age((step + 1) % 0x1_0000, last) <= Age(step, last) + 1
  {
    AgeWraps(step + 1, last);
  }

  lemma AgeZero(step: nat)
    ensures Age(step, step % 0x100) == 0
  {
  }

  /** After a change at step i, the 8-bit age at any later point is at most the true distance. */
  lemma {:induction false} AgeAfterChange(s: Core, inputs: seq<Input>, i: nat, n: nat)
    requires i < n <= |inputs| && ChangesAt(s, inputs, i)
    ensures AgeOf(CoreRun(s, inputs, n)) <= n - i - 1
  {
    var before := CoreRun(s, inputs, n - 1);
    CountersAdvance(before, inputs[n - 1]);
    AgeNext(before.counters.step, before.counters.lastChange);
    AgeZero(CoreRun(s, inputs, n).counters.step);
    if n > i + 1 {
      AgeAfterChange(s, inputs, i, n - 1);
    }
  }

  lemma CoreHysteresis(s: Core, inputs: seq<Input>, i: nat, j: nat)
    requires i < j < |inputs|
    requires ChangesAt(s, inputs, i) && ChangesAt(s, inputs, j)
    requires !Overrides(Decide(CoreRun(s, inputs, j), inputs[j]))
    ensures j - i >= HYSTERESIS_STEPS
  {
    var before := CoreRun(s, inputs, j);
    AgeAfterChange(s, inputs, i, j);
    AgeNext(before.counters.step, before.counters.lastChange);
    FreeChange(before, inputs[j]);
  }

  /** Step k of a run of the caller's struct changes the depth, neither probing nor forced by its lane. */
  predicate ChangesFreely(s: State, inputs: seq<Input>, k: nat)
    requires k < |inputs|
  {
    Run(s, inputs, k + 1).depth != Run(s, inputs, k).depth && !Overrides(Decide(Unfold(Run(s, inputs, k)), inputs[k]))
  }

  /**
   Hysteresis: from any struct, after any change of depth, the next change that is neither a probe
   nor forced by its lane comes at least 32 ready steps later, through any wrap of the counters.
   */
  lemma Hysteresis(s: State, inputs: seq<Input>, i: nat, j: nat)
    requires i < j < |inputs| && AllReady(inputs)
    requires Run(s, inputs, i + 1).depth != Run(s, inputs, i).depth && ChangesFreely(s, inputs, j)
    ensures j - i >= 32
  {
    RunUnfolds(s, inputs, i);
    RunUnfolds(s, inputs, i + 1);
    RunUnfolds(s, inputs, j);
    RunUnfolds(s, inputs, j + 1);
    CoreHysteresis(Unfold(s), inputs, i, j);
  }

  const RISE := Input(Finite(0.85), Finite(0.5), Finite(0.0), Finite(0.0), 1)

  /**
   A step that is not ready drops the depth to 1 without recording the change, so the next step may
   change it freely.
   */
  lemma UnreadyEscapesHysteresis()
    ensures
      var s, inputs := State(5, 100, 1), [RISE.(ready := 0), RISE];
      Run(s, inputs, 1).depth == 1 && Run(s, inputs, 2).depth == 2 && ChangesFreely(s, inputs, 1)
  {
    var s, inputs := State(5, 100, 1), [RISE.(ready := 0), RISE];
    var dropped := Core(1, Counters(100, 0, 0));
    assert Run(s, inputs, 0) == s && Run(s, inputs, 1) == State(1, 100, 0);
    assert Unfold(Run(s, inputs, 1)) == dropped;
    assert LaneOf(RISE) == Hit;
    assert Decide(dropped, RISE) == Decision(2, false, false, 101, 0, Hit);
  }

  // ----- No permanent collapse -----

  /** While the depth stays at 1 the last change stays where it was. */
  lemma {:induction false} Collapsed(s: Core, inputs: seq<Input>, n: nat)
    requires n <= |inputs| && s.depth == 1
    requires forall k :: 0 < k <= n ==> CoreRun(s, inputs, k).depth < 2
    ensures CoreRun(s, inputs, n).depth == 1
    ensures CoreRun(s, inputs, n).counters.lastChange == s.counters.lastChange
  {
    if n > 0 {
      Collapsed(s, inputs, n - 1);
      DepthRange(CoreRun(s, inputs, n - 1), inputs[n - 1]);
      CountersAdvance(CoreRun(s, inputs, n - 1), inputs[n - 1]);
    }
  }

  /** If the depth stays at 1 through a probe step, the last change is too recent at that step. */
  lemma ProbeFails(s: Core, inputs: seq<Input>, j: nat)
    requires s.depth == 1 && j < |inputs| && s.counters.step < 0x1_0000
    requires Sanitize(inputs[j].tps, 0.0) >= 0.0
    requires forall n :: 0 < n <= |inputs| ==> CoreRun(s, inputs, n).depth < 2
    requires (s.counters.step + j + 1) % 64 == 0
    ensures Age((s.counters.step + j + 1) % 0x1_0000, s.counters.lastChange) < HYSTERESIS_STEPS
  {
    Collapsed(s, inputs, j);
    StepCounter(s, inputs, j);
    ModNext(s.counters.step + j);
    var r := CoreRun(s, inputs, j);
    assert CoreRun(s, inputs, j + 1) == ReadyStep(r, inputs[j]);
    assert (r.counters.step + 1) % 0x1_0000 == (s.counters.step + j + 1) % 0x1_0000;
    ModMod(s.counters.step + j + 1);
    ProbeStep(r, inputs[j]);
  }

  /** Two probe steps 64 apart cannot both be too recent. */
  lemma ProbesApart(x: nat, last: nat)
    requires Age(x % 0x1_0000, last) < 32
    ensures Age((x + 64) % 0x1_0000, last) >= 32
  {
    AgeWraps(x, last);
    AgeWraps(x + 64, last);
  }

  /**
   The scheduler cannot collapse for good: from depth 1, within any 128 consecutive ready
   steps with a non-negative tps delta, some step returns a depth of at least 2.
   */
  lemma NoPermanentCollapse(s: State, inputs: seq<Input>)
    requires s.depth == 1 && |inputs| == 128 && AllReady(inputs)
    requires forall k :: 0 <= k < |inputs| ==> Sanitize(inputs[k].tps, 0.0) >= 0.0
    ensures exists n :: 0 < n <= |inputs| && Run(s, inputs, n).depth >= 2
  {
    var n := CoreEscapes(Unfold(s), inputs);
    RunUnfolds(s, inputs, n);
  }

  lemma CoreEscapes(s: Core, inputs: seq<Input>) returns (n: nat)
    requires s.depth == 1 && s.counters.step < 0x1_0000 && |inputs| == 2 * PROBE_INTERVAL
    requires forall k :: 0 <= k < |inputs| ==> Sanitize(inputs[k].tps, 0.0) >= 0.0
    ensures 0 < n <= |inputs| && CoreRun(s, inputs, n).depth >= 2
  {
    if forall n :: 0 < n <= |inputs| ==> CoreRun(s, inputs, n).depth < 2 {
      var x := s.counters.step;
      var j := 63 - x % 64;
      ProbeFails(s, inputs, j);
      ProbeFails(s, inputs, j + 64);
      ProbesApart(x + j + 1, s.counters.lastChange);
    }
    n :| 0 < n <= |inputs| && CoreRun(s, inputs, n).depth >= 2;
  }

  /** 127 inputs that hold the depth, except for one wish to go deeper at the first probe step. */
  function Stall(): (inputs: seq<Input>)
    ensures |inputs| == 2 * PROBE_INTERVAL - 1
    ensures forall k :: 0 <= k < |inputs| ==> inputs[k] == if k == 63 then DEEPER else HOLD
  {
    seq(127, k => if k == 63 then DEEPER else HOLD)
  }

  const HOLD := Input(Finite(0.79), Finite(0.5), Finite(0.0), Finite(1.0), 1)
  const DEEPER := Input(Finite(0.95), Finite(0.4), Finite(0.0), Finite(1.0), 1)
  const STALLED := State(1, 50 * 0x1_0000, 1)

  /** 128 steps is the best possible bound: this run of 127 never leaves depth 1. */
  lemma CollapseBoundIsTight(n: nat)
    requires n <= |Stall()|
    ensures Run(STALLED, Stall(), n).depth == 1
  {
    assert Unfold(STALLED) == Core(1, Counters(0, 50, 0));
    RunUnfolds(STALLED, Stall(), n);
    CoreStalls(n);
  }

  lemma {:induction false} CoreStalls(n: nat)
    requires n <= |Stall()|
    ensures CoreRun(Core(1, Counters(0, 50, 0)), Stall(), n) == Core(1, Counters(n, 50, 0))
  {
    if n > 0 {
      CoreStalls(n - 1);
      StallStep(n - 1);
    }
  }

  lemma StallStep(k: nat)
    requires k < 127
    ensures ReadyStep(Core(1, Counters(k, 50, 0)), if k == 63 then DEEPER else HOLD) ==
            Core(1, Counters(k + 1, 50, 0))
  {
    var s, i := Core(1, Counters(k, 50, 0)), if k == 63 then DEEPER else HOLD;
    assert LaneOf(i) == SpecHit;
    assert Decide(s, i) == Decision(if k == 63 then 3 else 1, false, false, k + 1, 0, SpecHit);
  }
}
