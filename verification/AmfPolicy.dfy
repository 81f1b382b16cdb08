/** What the eviction order and the ROI bookkeeping of the AMF store come to in terms of times, counts and averages. */
module AmfPolicy {
  import opened Wrappers
  import opened Llama
  import opened AmfModel
  import opened AmfStorage

  // ----- Eviction order -----

  /** The tier of an entry with a known last access is decided by its age alone. */
  lemma TierByAge<D>(c: Config, e: Entry<D>, now: nat)
    requires 0 < Touched(e) <= now
    ensures Classify(c, e, now) == Hot <==> now <= Touched(e) + c.hotTtl
    ensures Classify(c, e, now) == Warm <==> Touched(e) + c.hotTtl < now <= Touched(e) + c.warmTtl
  {
  }

  /** An entry never accessed at a known time, or accessed in the future, is cold. */
  lemma UnknownIsCold<D>(c: Config, e: Entry<D>, now: nat)
    requires Touched(e) == 0 || now < Touched(e)
    ensures Classify(c, e, now) == Cold
  {
  }

  function Warmth(t: Tier): nat {
    match t
    case Cold => 0
    case Warm => 1
    case Hot => 2
  }

  /** Of two entries the one touched earlier is never in a warmer tier. */
  lemma OlderIsColder<D>(c: Config, a: Entry<D>, b: Entry<D>, now: nat)
    requires 0 < Touched(a) <= Touched(b) <= now
    ensures Warmth(Classify(c, a, now)) <= Warmth(Classify(c, b, now))
  {
  }

  /** What a policy looks at first: smaller goes earlier. */
  function Worth<D>(policy: Policy, e: Entry<D>): real {
    match policy
    case Lru => Touched(e) as real
    case Lfu => e.accessCount as real
    case Roi => RoiScore(e)
  }

  /** The victim of a tier is the least recently used, the least often used or the one of least ROI there. */
  lemma VictimOfTier<D>(c: Config, es: seq<Entry<D>>, tier: Tier, now: nat, v: nat, j: nat)
    requires BestIn(c, es, tier, now, v) && j < |es| && Classify(c, es[j], now) == tier
    ensures Worth(c.policy, es[v]) <= Worth(c.policy, es[j])
  {
  }

  /** What a policy looks at next, the first being equal. */
  function Second<D>(policy: Policy, e: Entry<D>): nat {
    match policy
    case Lru => e.accessCount
    case Lfu => Touched(e)
    case Roi => e.accessCount
  }

  /** Ties go by use and access, and what is still equal goes in the order of the entries. */
  lemma TiesOfTier<D>(c: Config, es: seq<Entry<D>>, tier: Tier, now: nat, v: nat, j: nat)
    requires BestIn(c, es, tier, now, v) && j < |es| && Classify(c, es[j], now) == tier
    requires Worth(c.policy, es[v]) == Worth(c.policy, es[j])
    ensures Second(c.policy, es[v]) <= Second(c.policy, es[j])
    ensures c.policy == Roi && es[v].accessCount == es[j].accessCount ==> Touched(es[v]) <= Touched(es[j])
    ensures es[v].accessCount == es[j].accessCount && Touched(es[v]) == Touched(es[j]) ==> v <= j
  {
  }

  /** Every entry was touched at a time in the past. */
  ghost predicate AllTouched<D>(es: seq<Entry<D>>, now: nat) {
    forall i :: 0 <= i < |es| ==> 0 < Touched(es[i]) <= now
  }

  /** Under LRU every budget eviction takes the least recently used entry of the whole store. */
  lemma LruTakesOldest<D>(c: Config, s: Eviction<D>, incoming: nat, j: nat)
    requires c.policy == Lru && Justified(c, s, incoming) && AllTouched(s.before, s.now) && j < |s.before|
    ensures s.victim < |s.before| && Touched(s.before[s.victim]) <= Touched(s.before[j])
  {
    var tier := Classify(c, s.before[s.victim], s.now);
    assert BestIn(c, s.before, tier, s.now, s.victim);
    var other := Classify(c, s.before[j], s.now);
    if other == tier {
      VictimOfTier(c, s.before, tier, s.now, s.victim, j);
    } else {
      assert Warmth(other) > Warmth(tier);
      if Touched(s.before[j]) < Touched(s.before[s.victim]) {
        OlderIsColder(c, s.before[j], s.before[s.victim], s.now);
      }
    }
  }

  /** A hit makes an entry the most recently touched, counts it once more and keeps what identifies it. */
  lemma HitTouches<D>(c: Config, e: Entry<D>, restoreMs: nat, savedMs: nat, now: nat, streak: nat)
    requires now > 0
    ensures
      var e' := Noted(c, e, restoreMs, savedMs, now, streak);
      && Touched(e') == LastHit(e') == now && e'.accessCount == e.accessCount + 1 && e'.hitCount == e.hitCount + 1
      && e'.key == e.key && e'.prefixLen == e.prefixLen && e'.checksum == e.checksum && e'.kvSize == e.kvSize
  {
  }

  /** A hot entry goes only when the bytes to be held exceed 98 percent of the budget. */
  lemma HotOnlyCritical<D>(c: Config, s: Eviction<D>, incoming: nat)
    requires Justified(c, s, incoming) && s.victim < |s.before| && Classify(c, s.before[s.victim], s.now) == Hot
    ensures 100 * (SumBytes(s.before) + incoming) > 98 * c.Budget()
  {
    assert !c.Below(SumBytes(s.before) + incoming, CRITICAL);
  }

  /** A new entry is touched when it is stored and has no hit; a renewed one keeps its history and gets a new lease. */
  lemma StoreTouches<D>(c: Config, h: Hasher<D>, prev: Entry<D>, ctx: Context, tokens: seq<Token>, kv: seq<Byte>,
                        savedMs: nat, now: nat)
    requires c.Valid()
    ensures
      var e := NewEntry(c, h, ctx, tokens, kv, savedMs, now);
      Touched(e) == LastHit(e) == now && e.accessCount == e.hitCount == 0 && e.emaRoi.None? && RoiScore(e) == 0.0
    ensures
      var e := Renewed(c, h, prev, ctx, tokens, kv, savedMs, now);
      && e.accessCount == prev.accessCount && e.hitCount == prev.hitCount && e.lastHit == prev.lastHit
      && e.lastAccess == prev.lastAccess && e.emaRoi == prev.emaRoi && e.lastUsed == now
      && Touched(e) == (if prev.lastAccess > 0 then Touched(prev) else now)
      && e.expiresAt == if c.defaultTtl > 0 then now + c.effectiveTtl(prev.accessCount) else prev.expiresAt
  {
  }

  // ----- Admission -----

  /** A prompt that is not stored is admitted if it is long enough, fits the budget and admissions are open. */
  lemma FirstAdmission<D(!new)>(store: AmfStore<D>, key: Key<D>, numTokens: nat, size: nat)
    requires store.Valid() && key !in store.index
    ensures store.Admissible(key, numTokens, size) <==>
      && store.config.enabled && store.config.minTokens <= numTokens && size != 0
      && (store.config.Budget() == 0 || size <= store.config.Budget()) && !store.admissionsDisabled
  {
  }

  /** With an ROI threshold, a prompt that was stored and never restored since is not admitted again. */
  lemma UnprovenStaysOut<D(!new)>(store: AmfStore<D>, key: Key<D>, numTokens: nat, size: nat)
    requires store.Valid() && key in store.index && store.config.minAdmitRoi > 0.0
    requires
      var e := store.entries[store.index[key]];
      e.emaRoi.None? && e.seenCount > 0
    ensures !store.Admissible(key, numTokens, size)
  {
  }

  /** Without one, a stored prompt is admitted again whatever its ROI, even when admissions are closed. */
  lemma StoredIsAdmitted<D(!new)>(store: AmfStore<D>, key: Key<D>, numTokens: nat, size: nat)
    requires store.Valid() && key in store.index && store.config.minAdmitRoi <= 0.0
    requires store.config.enabled && store.config.minTokens <= numTokens && size > 0
    requires store.config.Budget() == 0 || size <= store.config.Budget()
    ensures store.Admissible(key, numTokens, size)
  {
  }

  // ----- Averages -----

  /** ROI is time saved per time of restore. */
  lemma RoiIsRatio(restoreMs: nat, savedMs: nat)
    ensures restoreMs > 0 ==> RoiOf(restoreMs, savedMs) * restoreMs as real == savedMs as real
    ensures restoreMs == 0 ==> RoiOf(restoreMs, savedMs) == 0.0
  {
  }

  /** An entry without an average ROI is scored by the ratio of its average times. */
  lemma ScoreIsRatio<D>(e: Entry<D>)
    requires e.emaRoi.None? && e.emaSaved.Some? && e.emaRestore.Some? && e.emaRestore.value > 0.0
    ensures RoiScore(e) * e.emaRestore.value == e.emaSaved.value
  {
  }

  /** The hits in a row after which the average is below the threshold; one at or above it starts the count again. */
  lemma LowHitsCount<D>(c: Config, e: Entry<D>, restoreMs: nat, savedMs: nat, now: nat, streak: nat)
    requires DropsLowRoi(c) && e.lowRoiHits < 0xFFFF_FFFF
    ensures
      var e' := Noted(c, e, restoreMs, savedMs, now, streak);
      e'.emaRoi.Some? && e'.lowRoiHits == if e'.emaRoi.value < c.minAdmitRoi then e.lowRoiHits + 1 else 0
  {
  }

  /** A moving average over a list of samples. */
  function Averaged(current: Option<real>, samples: seq<real>): Option<real> {
    if samples == [] then current else UpdateEma(Averaged(current, samples[..|samples| - 1]), samples[|samples| - 1])
  }

  /** Equal samples keep an average that is equal to them, and give it to an entry that has none. */
  lemma {:induction false} SteadyAverage(current: Option<real>, samples: seq<real>, x: real)
    requires (current.None? && samples != []) || current == Some(x)
    requires forall i :: 0 <= i < |samples| ==> samples[i] == x
    ensures Averaged(current, samples) == Some(x)
  {
    if |samples| > 1 || (samples != [] && current.Some?) {
      SteadyAverage(current, samples[..|samples| - 1], x);
    }
  }

  /** A sample moves an average a fifth of the way: one below lowers it, but not down to the sample. */
  lemma AverageMoves(average: real, x: real)
    ensures 5.0 * (UpdateEma(Some(average), x).value - average) == x - average
    ensures x < average ==> x < UpdateEma(Some(average), x).value < average
    ensures x >= average ==> UpdateEma(Some(average), x).value >= average
  {
  }

  /** The streak counts the hits in a row whose ROI is below the average, and ends with one that is not. */
  lemma StreakCounts<D>(before: nat, e: Entry<D>, restoreMs: nat, savedMs: nat)
    requires before < 0xFFFF_FFFF
    ensures Streak(before, e, restoreMs, savedMs) ==
      if e.emaRoi.Some? && RoiOf(restoreMs, savedMs) < e.emaRoi.value then before + 1 else 0
  {
    if e.emaRoi.Some? {
      AverageMoves(e.emaRoi.value, RoiOf(restoreMs, savedMs));
    }
  }

  /** The times of one restore. */
  datatype Sample = Sample(restoreMs: nat, savedMs: nat, now: nat) {
    function Roi(): real { RoiOf(restoreMs, savedMs) }
  }

  /** The ROI of the hits starts below an average and never rises. */
  ghost predicate Falling(average: real, hits: seq<Sample>) {
    && (hits != [] ==> hits[0].Roi() < average)
    && (forall i :: 0 < i < |hits| ==> hits[i].Roi() <= hits[i - 1].Roi())
  }

  /** Five hits in a row on an entry whose ROI keeps falling end all admissions of new prompts. */
  method FallingCloses<D(==, !new)>(store: AmfStore<D>, entry: Entry<D>, hits: seq<Sample>)
    requires store.Valid() && entry.key in store.index && !DropsLowRoi(store.config) && |hits| == 5
    requires store.entries[store.index[entry.key]].emaRoi.Some?
    requires Falling(store.entries[store.index[entry.key]].emaRoi.value, hits)
    modifies store
    ensures store.Valid() && store.admissionsDisabled && store.roiDeclineStreak >= 5
  {
    var i := 0;
    while i < 5
      invariant 0 <= i <= 5 && store.Valid() && entry.key in store.index && store.roiDeclineStreak >= i
      invariant store.entries[store.index[entry.key]].emaRoi.Some?
      invariant i < 5 ==> hits[i].Roi() < store.entries[store.index[entry.key]].emaRoi.value
      invariant i == 5 ==> store.admissionsDisabled
    {
      Decline(store, entry, hits[i]);
      i := i + 1;
    }
  }

  /** One hit whose ROI is below the average. */
  method Decline<D(==, !new)>(store: AmfStore<D>, entry: Entry<D>, hit: Sample)
    requires store.Valid() && entry.key in store.index && !DropsLowRoi(store.config)
    requires store.entries[store.index[entry.key]].emaRoi.Some?
    requires hit.Roi() < store.entries[store.index[entry.key]].emaRoi.value
    modifies store
    ensures store.Valid() && entry.key in store.index && store.entries[store.index[entry.key]].emaRoi.Some?
    ensures hit.Roi() < store.entries[store.index[entry.key]].emaRoi.value
    ensures store.entries[store.index[entry.key]].emaRoi.value < old(store.entries[store.index[entry.key]].emaRoi.value)
    ensures store.roiDeclineStreak > old(store.roiDeclineStreak) || store.roiDeclineStreak >= 0xFFFF_FFFF
    ensures store.roiDeclineStreak >= 5 ==> store.admissionsDisabled
  {
    ghost var i := store.index[entry.key];
    AverageMoves(store.entries[i].emaRoi.value, hit.Roi());
    store.NoteHit(entry, hit.restoreMs, hit.savedMs, hit.now);
    assert store.entries[i].key == entry.key;
  }
}
