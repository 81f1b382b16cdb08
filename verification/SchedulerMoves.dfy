/** What a ready step of the scheduler does to the depth, in terms of the signals a caller passes. */
module SchedulerMoves {
  import opened Scheduler

  function Acceptance(i: Input): real { SanitizeUnit(i.acceptance, 0.0) }

  function Entropy(i: Input): real { SanitizeUnit(i.entropy, 1.0) }

  function Tps(i: Input): real { Sanitize(i.tps, 0.0) }

  function Reuse(i: Input): real { SanitizeUnit(i.reuse, 0.0) }

  /** Signals at least these good: acceptance and tps no lower, entropy no higher. */
  predicate Meets(i: Input, acceptance: real, entropy: real, tps: real) {
    Acceptance(i) >= acceptance && Entropy(i) <= entropy && Tps(i) >= tps
  }

  function Min(a: int, b: int): int { if a < b then a else b }

  function Max(a: int, b: int): int { if a > b then a else b }

  /** Enough steps have passed since the last change of depth. */
  predicate Rested(s: Core) {
    Age((s.counters.step + 1) % 0x1_0000, s.counters.lastChange) >= HYSTERESIS_STEPS
  }

  // ----- The lanes -----

  function Rank(lane: Lane): nat {
    match lane
    case Miss => 0
    case Hit => 1
    case SpecHit => 2
  }

  /** `j` has signals no worse than `i`. */
  predicate Better(i: Input, j: Input) {
    Meets(j, Acceptance(i), Entropy(i), Tps(i))
  }

  /** Better signals and no less reuse never give a worse lane. */
  lemma LaneMonotone(i: Input, j: Input)
    requires Better(i, j) && Reuse(i) <= Reuse(j)
    ensures Rank(LaneOf(i)) <= Rank(LaneOf(j))
  {
  }

  /** What it takes to be on the miss lane, and to be on the speculative one. */
  lemma LanesApart(i: Input)
    ensures LaneOf(i) == Miss <==> Reuse(i) < 0.70 && (Acceptance(i) < 0.68 || Entropy(i) > 0.68)
    ensures LaneOf(i) == SpecHit <==> Reuse(i) >= 0.70 && Meets(i, 0.78, 0.58, -0.05)
  {
  }

  // ----- The moves of each lane -----

  /** On SPEC_HIT a depth goes up by two, by one or stays; it moves only when the last change is not recent. */
  lemma SpecHitMoves(s: Core, i: Input)
    requires LaneOf(i) == SpecHit && 2 <= s.depth <= MAX_DEPTH
    ensures ReadyStep(s, i).depth ==
      if !Rested(s) then s.depth
      else if Meets(i, 0.90, 0.45, -0.02) then Min(s.depth + 2, MAX_DEPTH)
      else if Meets(i, 0.80, 0.58, -0.05) then Min(s.depth + 1, MAX_DEPTH)
      else s.depth
    ensures ReadyStep(s, i).counters.missStreak == 0
  {
  }

  /**
   On HIT bad signals lower a depth above 2 by exactly one, or to the lane's 12, at once; good ones
   raise it by one up to 12 when the last change is not recent; a depth above 12 then falls to 12.
   */
  lemma HitMoves(s: Core, i: Input)
    requires LaneOf(i) == Hit && 2 <= s.depth <= MAX_DEPTH
    ensures ReadyStep(s, i).depth ==
      if !Meets(i, 0.58, 0.84, -0.14) then Min(Max(s.depth - 1, 2), 12)
      else if !Rested(s) then s.depth
      else if Meets(i, 0.82, 0.62, -0.03) then Min(s.depth + 1, 12)
      else Min(s.depth, 12)
    ensures ReadyStep(s, i).counters.missStreak == 0
  {
  }

  /** The miss lane has lasted long enough, and the signals have recovered. */
  predicate Starved(s: Core, i: Input) {
    LaneOf(i) == Miss && s.counters.missStreak + 1 >= STARVATION_STEPS && Acceptance(i) >= 0.60 && Entropy(i) <= 0.70
  }

  /** On MISS the depth is 3 for one step when starved, which ends the streak; else 2 on bad signals, else at most 3. */
  lemma MissMoves(s: Core, i: Input)
    requires LaneOf(i) == Miss && 2 <= s.depth <= MAX_DEPTH
    ensures ReadyStep(s, i).depth ==
      if Starved(s, i) then 3 else if !Meets(i, 0.50, 0.85, -0.10) then 2 else Min(s.depth, 3)
    ensures ReadyStep(s, i).counters.missStreak == if Starved(s, i) then 0 else Min(s.counters.missStreak + 1, 255)
  {
  }

  /** From depth 2, a MISS step gives 3 exactly when starved. */
  lemma MissProbe(s: Core, i: Input)
    requires LaneOf(i) == Miss && s.depth == 2
    ensures ReadyStep(s, i).depth == 3 <==> Starved(s, i)
  {
  }

  /** A step that overrides hysteresis by force raises no depth above 2, unless the miss lane is starved. */
  lemma ForceNeverRaises(s: Core, i: Input)
    requires Decide(s, i).forceDown && !Starved(s, i)
    ensures ReadyStep(s, i).depth <= Max(s.depth, 2)
  {
  }

  // ----- Monotonicity in the signals -----

  /** In one lane, better signals never give a smaller depth. */
  ghost predicate Monotone(s: Core) {
    forall i, j :: LaneOf(i) == LaneOf(j) && Better(i, j) ==> ReadyStep(s, i).depth <= ReadyStep(s, j).depth
  }

  lemma BetterNoSmaller(s: Core, i: Input, j: Input)
    requires 2 <= s.depth <= MAX_DEPTH && LaneOf(i) == LaneOf(j) && Better(i, j)
    ensures ReadyStep(s, i).depth <= ReadyStep(s, j).depth
  {
    match LaneOf(i) {
      case SpecHit => SpecHitMoves(s, i); SpecHitMoves(s, j);
      case Hit => HitMoves(s, i); HitMoves(s, j);
      case Miss => MissMoves(s, i); MissMoves(s, j);
    }
  }

  const POOR := Input(Finite(0.5), Finite(0.9), Finite(-0.2), Finite(0.8), 1)
  const FAIR := Input(Finite(0.7), Finite(0.7), Finite(-0.1), Finite(0.8), 1)

  /** At depth 1 bad signals on HIT force the depth up to 2, and fair ones leave it. */
  lemma PoorBeatsFair(s: Core)
    requires s.depth == 1
    ensures LaneOf(POOR) == LaneOf(FAIR) == Hit && Better(POOR, FAIR)
    ensures ReadyStep(s, POOR).depth == 2 && ReadyStep(s, FAIR).depth == 1
  {
  }

  /** For a depth in 1..16 the step is monotone in the signals if and only if the depth is not 1. */
  lemma MonotoneIff(s: Core)
    requires InDepthRange(s.depth)
    ensures Monotone(s) <==> s.depth >= 2
  {
    if s.depth >= 2 {
      forall i, j | LaneOf(i) == LaneOf(j) && Better(i, j)
        ensures ReadyStep(s, i).depth <= ReadyStep(s, j).depth
      {
        BetterNoSmaller(s, i, j);
      }
    } else {
      PoorBeatsFair(s);
    }
  }

  // ----- Starvation over runs -----

  /** An input on the miss lane whose signals would end a starvation. */
  predicate Recovering(i: Input) {
    i.ready != 0 && LaneOf(i) == Miss && Acceptance(i) >= 0.60 && Entropy(i) <= 0.70
  }

  ghost predicate AllRecovering(inputs: seq<Input>) {
    forall k :: 0 <= k < |inputs| ==> Recovering(inputs[k])
  }

  /** A counter that goes up by one at a time, up to its maximum. */
  lemma {:induction false} Counting(streaks: seq<nat>, n: nat)
    requires n < |streaks| && streaks[0] <= 255
    requires forall k :: 0 <= k < n ==> streaks[k + 1] == Min(streaks[k] + 1, 255)
    ensures streaks[n] == Min(streaks[0] + n, 255)
  {
    if n > 0 {
      Counting(streaks, n - 1);
      assert streaks[n - 1 + 1] == Min(streaks[n - 1] + 1, 255);
    }
  }

  lemma MissStreak(s: Core, i: Input)
    requires LaneOf(i) == Miss
    ensures ReadyStep(s, i).counters.missStreak == if Starved(s, i) then 0 else Min(s.counters.missStreak + 1, 255)
    ensures Starved(s, i) ==> ReadyStep(s, i).depth == 3
  {
  }

  function StreakAt(s: Core, inputs: seq<Input>, k: nat): nat
    requires k <= |inputs|
  {
    CoreRun(s, inputs, k).counters.missStreak
  }

  predicate StarvedAt(s: Core, inputs: seq<Input>, k: nat)
    requires k < |inputs|
  {
    Starved(CoreRun(s, inputs, k), inputs[k])
  }

  lemma StreakStep(s: Core, inputs: seq<Input>, k: nat)
    requires k < |inputs| && Recovering(inputs[k])
    ensures !StarvedAt(s, inputs, k) ==> StreakAt(s, inputs, k + 1) == Min(StreakAt(s, inputs, k) + 1, 255)
    ensures StreakAt(s, inputs, k) + 1 >= STARVATION_STEPS ==> StarvedAt(s, inputs, k)
  {
    MissStreak(CoreRun(s, inputs, k), inputs[k]);
  }

  lemma StreaksGrow(s: Core, inputs: seq<Input>)
    requires AllRecovering(inputs) && |inputs| == STARVATION_STEPS && s.counters.missStreak <= 255
    requires forall k :: 0 <= k < |inputs| ==> !StarvedAt(s, inputs, k)
    ensures StreakAt(s, inputs, STARVATION_STEPS - 1) + 1 >= STARVATION_STEPS
  {
    var streaks := seq(|inputs|, k requires 0 <= k < |inputs| => StreakAt(s, inputs, k));
    forall k | 0 <= k < |inputs| - 1 ensures streaks[k + 1] == Min(streaks[k] + 1, 255) {
      StreakStep(s, inputs, k);
    }
    Counting(streaks, STARVATION_STEPS - 1);
  }

  lemma FirstStarved(s: Core, inputs: seq<Input>) returns (k: nat)
    requires AllRecovering(inputs) && |inputs| == STARVATION_STEPS && s.counters.missStreak <= 255
    ensures k < |inputs| && StarvedAt(s, inputs, k)
  {
    if forall k :: 0 <= k < |inputs| ==> !StarvedAt(s, inputs, k) {
      StreaksGrow(s, inputs);
      StreakStep(s, inputs, STARVATION_STEPS - 1);
    }
    k :| 0 <= k < |inputs| && StarvedAt(s, inputs, k);
  }

  /** Any 96 ready steps on the miss lane with recovering signals contain one that returns 3 and ends the streak. */
  lemma StarvationEnds(s: State, inputs: seq<Input>) returns (n: nat)
    requires AllRecovering(inputs) && |inputs| == 96
    ensures 0 < n <= |inputs| && Run(s, inputs, n).depth == 3 && Unpack(Run(s, inputs, n).packed).missStreak == 0
  {
    var c := Unfold(s);
    var k := FirstStarved(c, inputs);
    n := k + 1;
    MissStreak(CoreRun(c, inputs, k), inputs[k]);
    RunUnfolds(s, inputs, n);
  }

  // ----- Release -----

  /** While the depth stays, the 8-bit age is the true distance to the last change, up to its wrap. */
  lemma {:induction false} AgeIsDistance(s: Core, inputs: seq<Input>, i: nat, n: nat)
    requires i < n <= |inputs| && n - i <= 0x100 && ChangesAt(s, inputs, i)
    requires forall k :: i < k < n ==> !ChangesAt(s, inputs, k)
    ensures AgeOf(CoreRun(s, inputs, n)) == n - i - 1
  {
    var before := CoreRun(s, inputs, n - 1);
    CountersAdvance(before, inputs[n - 1]);
    if n == i + 1 {
      AgeZero(CoreRun(s, inputs, n).counters.step);
    } else {
      AgeIsDistance(s, inputs, i, n - 1);
      assert !ChangesAt(s, inputs, n - 1);
      AgeSteps(before.counters.step, before.counters.lastChange);
    }
  }

  lemma AgeSteps(step: nat, last: nat)
    requires Age(step, last) < 0xFF
    ensures Age((step + 1) % 0x1_0000, last) == Age(step, last) + 1
  {
    AgeWraps(step + 1, last);
  }

  /** A change is held back for 31 steps after the last one and not for longer, until the 8-bit age wraps. */
  lemma Released(s: Core, inputs: seq<Input>, i: nat, j: nat)
    requires i < j < |inputs| && 32 <= j - i < 0x100 && ChangesAt(s, inputs, i)
    requires forall k :: i < k < j ==> !ChangesAt(s, inputs, k)
    ensures CoreRun(s, inputs, j + 1).depth == Decide(CoreRun(s, inputs, j), inputs[j]).depth
  {
    var before := CoreRun(s, inputs, j);
    AgeIsDistance(s, inputs, i, j);
    AgeSteps(before.counters.step, before.counters.lastChange);
  }
}
