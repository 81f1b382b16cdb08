/**
 The tiered cache router over the compressed pool and the LMCache fallback.

 `latest` records the KV most recently stored under each hash; the class invariant says what
 each tier may still hold of it, through every eviction, failed insertion and promotion.
 */
module TieredRouter {
  import opened Wrappers
  import opened PoolModel
  import opened PoolEviction
  import opened SlabLayer
  import opened SlabPool
  import opened LmCache

  datatype CacheTier = G1Amf | G3LmCache | Cold

  datatype MissReason = FirstRequest | EvictedFromAmf | LmCacheDisabled | LmCacheMiss | LmCacheError | FormatMismatch
                      | PrefixTooShort

  datatype WritePolicy = Always | LargeOnly | OnEviction | Never

  /** The payload of a lookup: a pool entry, a raw tensor, or nothing. */
  datatype LookupResult<KV> = Warm(entry: PoolEntry) | Offloaded(kv: KV) | Missed(reason: MissReason)

  function TierOf<KV>(r: LookupResult<KV>): CacheTier {
    match r
    case Warm(_) => G1Amf
    case Offloaded(_) => G3LmCache
    case Missed(_) => Cold
  }

  /** What put_from_raw feeds to the slabs: the format chosen and one blob per layer. */
  datatype Compressed = Compressed(format: string, blobs: seq<Blob>)

  /**
   Shape inference, dtype detection and the codec registry: a requested format (or None) and a
   raw tensor give the compressed layers, or None where put_from_raw raises.
   */
  type Compressor<!KV> = (Option<string>, KV) -> Option<Compressed>

  /** Why a lookup that found nothing is cold: unseen hashes are first requests, seen ones were evicted. */
  function Refined(why: MissReason, wasSeen: bool): MissReason {
    if why in {LmCacheMiss, LmCacheDisabled} then (if wasSeen then EvictedFromAmf else FirstRequest) else why
  }

  /** A count dictionary with one count incremented. */
  function Bumped<T(==)>(counts: map<T, nat>, t: T): map<T, nat>
    requires t in counts
  {
    counts[t := counts[t] + 1]
  }

  function TierCount(hits: map<CacheTier, nat>): nat
    requires G1Amf in hits && G3LmCache in hits && Cold in hits
  {
    hits[G1Amf] + hits[G3LmCache] + hits[Cold]
  }

  ghost predicate AllReasons(misses: map<MissReason, nat>) {
    && FirstRequest in misses && EvictedFromAmf in misses && LmCacheDisabled in misses && LmCacheMiss in misses
    && LmCacheError in misses && FormatMismatch in misses && PrefixTooShort in misses
  }

  ghost function ReasonCount(misses: map<MissReason, nat>): nat
    requires AllReasons(misses)
  {
    misses[FirstRequest] + misses[EvictedFromAmf] + misses[LmCacheDisabled] + misses[LmCacheMiss] +
    misses[LmCacheError] + misses[FormatMismatch] + misses[PrefixTooShort]
  }

  lemma CountReason(misses: map<MissReason, nat>, reason: MissReason)
    requires AllReasons(misses)
    ensures reason in misses && AllReasons(Bumped(misses, reason))
    ensures ReasonCount(Bumped(misses, reason)) == ReasonCount(misses) + 1
  {
    match reason
    case FirstRequest =>
    case EvictedFromAmf =>
    case LmCacheDisabled =>
    case LmCacheMiss =>
    case LmCacheError =>
    case FormatMismatch =>
    case PrefixTooShort =>
  }

  /** Whether a prefill is mirrored to LMCache. */
  predicate ShouldMirror(policy: WritePolicy, numTokens: nat, threshold: nat, isEviction: bool) {
    match policy
    case Never => false
    case Always => true
    case LargeOnly => numTokens >= threshold
    case OnEviction => isEviction
  }

  /** An entry holds some encoding of a KV tensor. */
  ghost predicate Encodes<KV>(compress: Compressor<KV>, e: PoolEntry, kv: KV) {
    exists f :: compress(f, kv) == Some(Compressed(e.format, e.blobs))
  }

  /** LMCache holds nothing older than the latest store of this hash. */
  ghost predicate Clean<KV>(h: Hash, cpu: map<Hash, KV>, mirrored: set<Hash>) {
    h in mirrored || h !in cpu
  }

  /**
   What the tiers hold: `latest` is the KV most recently stored under a hash, `source` the KV its
   pool entry was made from. The two differ only where an older LMCache copy was promoted.
   */
  ghost predicate Coherent<KV>(compress: Compressor<KV>, index: Index, cpu: map<Hash, KV>, latest: map<Hash, KV>,
                               mirrored: set<Hash>, source: map<Hash, KV>)
  {
    && (forall h :: h in mirrored ==> h in latest && h in cpu && cpu[h] == latest[h])
    && (forall h :: h in cpu ==> h in latest)
    && (forall h :: h in index ==> h in latest && h in source && Encodes(compress, index[h], source[h]))
    && (forall h :: h in index && Clean(h, cpu, mirrored) ==> source[h] == latest[h])
  }

  /** A hit counts once, at some time, and changes nothing else in the pool. */
  ghost predicate Refreshed(index: Index, before: Index, h: Hash, e: PoolEntry) {
    h in before && index == before[h := e] && e == before[h].(lastHit := e.lastHit, hitCount := before[h].hitCount + 1)
  }

  /** A hit refreshes bookkeeping only, so the entry still encodes what it did. */
  lemma TouchCoherent<KV>(compress: Compressor<KV>, index: Index, cpu: map<Hash, KV>, latest: map<Hash, KV>,
                          mirrored: set<Hash>, source: map<Hash, KV>, h: Hash, e: PoolEntry)
    requires Coherent(compress, index, cpu, latest, mirrored, source) && h in index
    requires e.format == index[h].format && e.blobs == index[h].blobs
    ensures Coherent(compress, index[h := e], cpu, latest, mirrored, source) && Encodes(compress, e, source[h])
  {
    forall g | g in index[h := e] ensures Encodes(compress, index[h := e][g], source[g]) {
      assert Encodes(compress, index[g], source[g]);
    }
  }

  /** Dropping entries keeps the tiers coherent. */
  lemma ShrinkCoherent<KV>(compress: Compressor<KV>, index: Index, index': Index, cpu: map<Hash, KV>,
                           latest: map<Hash, KV>, mirrored: set<Hash>, source: map<Hash, KV>)
    requires Coherent(compress, index, cpu, latest, mirrored, source) && Shrunk(index', index)
    ensures Coherent(compress, index', cpu, latest, mirrored, source)
  {
  }

  /** Promoting what LMCache holds keeps the tiers coherent, whatever the pool evicted for it. */
  lemma PromoteCoherent<KV>(compress: Compressor<KV>, index: Index, index': Index, cpu: map<Hash, KV>,
                            latest: map<Hash, KV>, mirrored: set<Hash>, source: map<Hash, KV>, h: Hash)
    requires Coherent(compress, index, cpu, latest, mirrored, source) && h in cpu
    requires Shrunk(index' - {h}, index)
    requires h in index' ==> Encodes(compress, index'[h], cpu[h])
    ensures Coherent(compress, index', cpu, latest, mirrored, source[h := cpu[h]])
  {
    forall g | g in index' && g != h ensures g in index && index'[g] == index[g] {
      assert g in index' - {h} && (index' - {h})[g] == index'[g];
    }
  }

  /** A store makes the new KV the latest one; `mirror` says whether LMCache got it too. */
  lemma StoreCoherent<KV>(compress: Compressor<KV>, index: Index, index': Index, cpu: map<Hash, KV>,
                          latest: map<Hash, KV>, mirrored: set<Hash>, source: map<Hash, KV>, h: Hash, kv: KV,
                          mirror: bool)
    requires Coherent(compress, index, cpu, latest, mirrored, source)
    requires Shrunk(index' - {h}, index)
    requires h in index' ==> Encodes(compress, index'[h], kv)
    ensures Coherent(compress, index', if mirror then cpu[h := kv] else cpu, latest[h := kv],
                     if mirror then mirrored + {h} else mirrored - {h}, source[h := kv])
  {
    forall g | g in index' && g != h ensures g in index && index'[g] == index[g] {
      assert g in index' - {h} && (index' - {h})[g] == index'[g];
    }
  }

  /** What a caller may ask of the router. */
  datatype Op<KV> = Store(h: Hash, numTokens: nat, kv: KV, savings: real, format: Option<string>)
                  | Find(h: Hash, length: Option<nat>)

  /** An operation that stores its hash, or hits it. */
  predicate Touches<KV>(op: Op<KV>, r: Option<LookupResult<KV>>) {
    op.Store? || (r.Some? && !r.value.Missed?)
  }

  /** One of the first i operations stored this hash or hit it. */
  ghost predicate TouchedBefore<KV>(ops: seq<Op<KV>>, results: seq<Option<LookupResult<KV>>>, i: nat, h: Hash)
    requires i <= |ops| && i <= |results|
  {
    exists j :: 0 <= j < i && ops[j].h == h && Touches(ops[j], results[j])
  }

  /** The reason of a miss: a short prefix, a hash that is known, or a first request. */
  ghost predicate Explains<KV>(reason: MissReason, op: Op<KV>, minTokens: nat, known: bool) {
    op.Find? &&
      reason == if op.length.Some? && op.length.value < minTokens then PrefixTooShort
                else if known then EvictedFromAmf else FirstRequest
  }

  /** Result k is a miss only for its reason: the hash is known if something before stored or hit it. */
  ghost predicate Reported<KV>(ops: seq<Op<KV>>, results: seq<Option<LookupResult<KV>>>, k: nat, minTokens: nat,
                               known: set<Hash>)
    requires k < |ops| && k < |results|
  {
    && (results[k].Some? <==> ops[k].Find?)
    && (results[k].Some? && results[k].value.Missed? ==>
          Explains(results[k].value.reason, ops[k], minTokens,
                   ops[k].h in known || TouchedBefore(ops, results, k, ops[k].h)))
  }

  /** `seen` is what was known and what the operations so far stored or hit, and every miss is explained by it. */
  ghost predicate Told<KV>(ops: seq<Op<KV>>, results: seq<Option<LookupResult<KV>>>, minTokens: nat, known: set<Hash>,
                           seen: set<Hash>)
  {
    && |results| <= |ops|
    && (forall h :: h in seen <==> h in known || TouchedBefore(ops, results, |results|, h))
    && (forall k :: 0 <= k < |results| ==> Reported(ops, results, k, minTokens, known))
  }

  lemma TouchedPrefix<KV>(ops: seq<Op<KV>>, results: seq<Option<LookupResult<KV>>>, r: Option<LookupResult<KV>>, i: nat,
                          h: Hash)
    requires i <= |results| < |ops|
    ensures TouchedBefore(ops, results + [r], i, h) <==> TouchedBefore(ops, results, i, h)
    ensures TouchedBefore(ops, results + [r], |results| + 1, h) <==>
      TouchedBefore(ops, results, |results|, h) || (ops[|results|].h == h && Touches(ops[|results|], r))
  {
    var all := results + [r];
    if TouchedBefore(ops, results, i, h) {
      var j :| 0 <= j < i && ops[j].h == h && Touches(ops[j], results[j]);
      assert all[j] == results[j];
    }
    if TouchedBefore(ops, results, |results|, h) {
      var j :| 0 <= j < |results| && ops[j].h == h && Touches(ops[j], results[j]);
      assert all[j] == results[j];
    }
    assert all[|results|] == r;
  }

  lemma ToldNext<KV>(ops: seq<Op<KV>>, results: seq<Option<LookupResult<KV>>>, r: Option<LookupResult<KV>>,
                     minTokens: nat, known: set<Hash>, seen: set<Hash>, seen': set<Hash>)
    requires Told(ops, results, minTokens, known, seen) && |results| < |ops|
    requires r.Some? <==> ops[|results|].Find?
    requires r.Some? && r.value.Missed? ==>
      Explains(r.value.reason, ops[|results|], minTokens, ops[|results|].h in seen)
    requires seen' == if Touches(ops[|results|], r) then seen + {ops[|results|].h} else seen
    ensures Told(ops, results + [r], minTokens, known, seen')
  {
    var all := results + [r];
    forall h ensures h in seen' <==> h in known || TouchedBefore(ops, all, |all|, h) {
      TouchedPrefix(ops, results, r, 0, h);
    }
    forall k | 0 <= k < |all| ensures Reported(ops, all, k, minTokens, known) {
      TouchedPrefix(ops, results, r, k, ops[k].h);
      assert k < |results| ==> all[k] == results[k] && Reported(ops, results, k, minTokens, known);
    }
  }

  class TieredCacheRouter<KV(!new)> {
    const pool: CompressedVRAMPool
    const lmcache: LMCacheAdapter<KV>
    const compress: Compressor<KV>
    const minPrefixTokens: nat
    const writePolicy: WritePolicy
    const largeWriteThreshold: nat

    var seen: set<Hash>
    var missCounts: map<MissReason, nat>
    var hitCounts: map<CacheTier, nat>

    ghost var lookups: nat
    ghost var latest: map<Hash, KV>    // the KV most recently stored under each hash
    ghost var mirrored: set<Hash>      // hashes whose latest store also went to LMCache
    ghost var source: map<Hash, KV>    // the KV that each pool entry was made from

    ghost predicate Counted()
      reads this
    {
      && hitCounts.Keys == {G1Amf, G3LmCache, Cold}
      && AllReasons(missCounts)
      && TierCount(hitCounts) == lookups
      && ReasonCount(missCounts) == hitCounts[Cold]
    }

    /** A prefix shorter than the configured minimum is never looked up. */
    predicate TooShort(numTokens: Option<nat>) {
      numTokens.Some? && numTokens.value < minPrefixTokens
    }

    /** A store of this many tokens reaches LMCache. */
    ghost predicate Mirrors(numTokens: nat) {
      ShouldMirror(writePolicy, numTokens, largeWriteThreshold, false) && lmcache.enabled
    }

    /** All of Valid but what the tiers hold. */
    ghost predicate Sound()
      reads this, lmcache, pool, pool.slabs
    {
      && pool.Valid()
      && Counted()
      && latest.Keys <= seen
      && (!lmcache.enabled ==> lmcache.cpuStore == map[])
      && (writePolicy == Always && lmcache.enabled ==> mirrored == latest.Keys)
    }

    ghost predicate Valid()
      reads this, lmcache, pool, pool.slabs
    {
      Sound() && Coherent(compress, pool.index, lmcache.cpuStore, latest, mirrored, source)
    }

    constructor (pool: CompressedVRAMPool, lmcache: LMCacheAdapter<KV>, compress: Compressor<KV>,
                 minPrefixTokens: nat, writePolicy: WritePolicy, largeWriteThreshold: nat)
      requires pool.Valid() && pool.index == map[] && lmcache.cpuStore == map[]
      ensures Valid() && latest == map[] && lookups == 0 && seen == {}
      ensures this.pool == pool && this.lmcache == lmcache && this.writePolicy == writePolicy
    {
      this.pool, this.lmcache, this.compress := pool, lmcache, compress;
      this.minPrefixTokens, this.writePolicy, this.largeWriteThreshold :=
        minPrefixTokens, writePolicy, largeWriteThreshold;
      seen := {};
      missCounts := map[FirstRequest := 0, EvictedFromAmf := 0, LmCacheDisabled := 0, LmCacheMiss := 0,
                        LmCacheError := 0, FormatMismatch := 0, PrefixTooShort := 0];
      hitCounts := map[G1Amf := 0, G3LmCache := 0, Cold := 0];
      lookups, latest, mirrored, source := 0, map[], {}, map[];
    }

    /** How put_from_raw ends, given what is missing in the pool: kept, refused, or None when it raises. */
    ghost function Outcome(missing: seq<map<Owner, Span>>, c: Option<Compressed>): Option<bool>
    {
      if c.None? || pool.blockBytes == 0 then None
      else if !FitsAround(c.value.blobs, missing, pool.blocksPerLayer, pool.blockBytes) then Some(false)
      else if |c.value.blobs| > pool.numLayers then None
      else Some(true)
    }

    /**
     put_from_raw: compress, then insert. It raises when the tensor cannot be compressed, and then
     the pool is as it was; and when it fits but has more layers than the pool, and then entries
     may be gone and blocks lost.
     */
    method PutFromRaw(h: Hash, kv: KV, format: Option<string>, savings: real) returns (ok: Option<bool>)
      requires pool.Valid()
      modifies pool, pool.slabs
      ensures pool.Valid() && ok == Outcome(old(pool.missing), compress(format, kv))
      ensures compress(format, kv).None? ==> pool.index == old(pool.index) && pool.missing == old(pool.missing)
      ensures Shrunk(pool.index - {h}, old(pool.index))
      ensures ok == Some(true) ==> h in pool.index && Encodes(compress, pool.index[h], kv)
      ensures ok != Some(true) ==>
        Shrunk(pool.index, old(pool.index)) && (compress(format, kv).Some? ==> h !in pool.index)
    {
      var c := compress(format, kv);
      if c.None? { return None; }
      ok := PutLayers(h, c.value, savings);
      assert ok == Some(true) ==> compress(format, kv) == Some(Compressed(pool.index[h].format, pool.index[h].blobs));
    }

    /** The insertion of a compressed tensor. */
    method PutLayers(h: Hash, c: Compressed, savings: real) returns (ok: Option<bool>)
      requires pool.Valid()
      modifies pool, pool.slabs
      ensures pool.Valid() && ok == Outcome(old(pool.missing), Some(c))
      ensures Shrunk(pool.index - {h}, old(pool.index))
      ensures ok == Some(true) ==> h in pool.index && pool.index[h].format == c.format && pool.index[h].blobs == c.blobs
      ensures ok != Some(true) ==> h !in pool.index
    {
      var now: int := *;
      ghost var fits := FitsAround(c.blobs, pool.missing, pool.blocksPerLayer, pool.blockBytes);
      assert Outcome(pool.missing, Some(c)) ==
        if !fits then Some(false) else if |c.blobs| > pool.numLayers then None else Some(true);
      var r, _, _ := pool.Put(h, c.format, c.blobs, savings, now);
      ok := if r.Raised? then None else Some(r.Kept?);
    }

    /** Counts one lookup served by a tier. */
    method Count(h: Hash, tier: CacheTier)
      requires Valid() && tier != Cold
      modifies this`hitCounts, this`lookups, this`seen
      ensures Valid() && lookups == old(lookups) + 1 && seen == old(seen) + {h}
      ensures hitCounts == Bumped(old(hitCounts), tier)
    {
      hitCounts := Bumped(hitCounts, tier);
      lookups := lookups + 1;
      seen := seen + {h};
    }

    method CountMiss(reason: MissReason)
      requires Valid()
      modifies this`hitCounts, this`missCounts, this`lookups
      ensures Valid() && lookups == old(lookups) + 1
      ensures hitCounts == Bumped(old(hitCounts), Cold)
      ensures reason in old(missCounts) && missCounts == Bumped(old(missCounts), reason)
    {
      CountReason(missCounts, reason);
      missCounts := Bumped(missCounts, reason);
      hitCounts := Bumped(hitCounts, Cold);
      lookups := lookups + 1;
    }

    /** _miss: refines the reason by whether the hash was seen before, and counts a cold lookup. */
    method Miss(h: Hash, why: MissReason) returns (r: LookupResult<KV>)
      requires Valid()
      modifies this`hitCounts, this`missCounts, this`lookups
      ensures Valid() && lookups == old(lookups) + 1
      ensures hitCounts == Bumped(old(hitCounts), Cold)
      ensures r.Missed? && r.reason in old(missCounts)
      ensures missCounts == Bumped(old(missCounts), r.reason)
      ensures r.reason == Refined(why, h in seen)
    {
      var reason := why;
      if why == LmCacheMiss && h in seen {
        reason := EvictedFromAmf;
      } else if why == LmCacheDisabled && h in seen {
        reason := EvictedFromAmf;
      } else if why == LmCacheMiss && h !in seen {
        reason := FirstRequest;
      } else if why == LmCacheDisabled && h !in seen {
        reason := FirstRequest;
      }
      CountMiss(reason);
      r := Missed(reason);
    }

    method GetFromPool(h: Hash) returns (e: Option<PoolEntry>)
      requires Valid()
      modifies pool`index
      ensures Valid() && pool.index.Keys == old(pool.index).Keys
      ensures e.Some? <==> h in old(pool.index)
      ensures e.Some? ==> h in latest && h in source && Encodes(compress, e.value, source[h])
      ensures if e.Some? then Refreshed(pool.index, old(pool.index), h, e.value) else pool.index == old(pool.index)
    {
      var now: int := *;
      ghost var before := pool.index;
      e := pool.Get(h, now);
      if e.Some? {
        TouchCoherent(compress, before, lmcache.cpuStore, latest, mirrored, source, h, e.value);
      }
    }

    /** The pool tier of a lookup. */
    method FromPool(h: Hash) returns (e: Option<PoolEntry>)
      requires Valid()
      modifies this`hitCounts, this`lookups, this`seen, pool`index
      ensures Valid() && lookups == old(lookups) + (if e.Some? then 1 else 0) && pool.index.Keys == old(pool.index).Keys
      ensures e.Some? ==> hitCounts == Bumped(old(hitCounts), G1Amf)
      ensures e.None? ==> hitCounts == old(hitCounts) && missCounts == old(missCounts) && seen == old(seen)
      ensures e.Some? ==> seen == old(seen) + {h}
      ensures e.Some? <==> h in old(pool.index)
      ensures e.Some? ==> h in latest && h in source && Encodes(compress, e.value, source[h])
      ensures if e.Some? then Refreshed(pool.index, old(pool.index), h, e.value) else pool.index == old(pool.index)
    {
      e := GetFromPool(h);
      if e.Some? {
        Count(h, G1Amf);
      }
    }

    /** Copies what LMCache holds into the pool; an exception there is swallowed. */
    method Promote(h: Hash)
      requires Valid() && h in lmcache.cpuStore && h !in pool.index
      modifies pool, pool.slabs, this`source
      ensures Valid()
      ensures source == if h in pool.index then old(source)[h := lmcache.cpuStore[h]] else old(source)
      ensures h in pool.index <==> Outcome(old(pool.missing), compress(None, lmcache.cpuStore[h])) == Some(true)
    {
      ghost var before := pool.index;
      var ok := PutFromRaw(h, lmcache.cpuStore[h], None, 0.0);
      if ok == Some(true) {
        PromoteCoherent(compress, before, pool.index, lmcache.cpuStore, latest, mirrored, source, h);
        source := source[h := lmcache.cpuStore[h]];
      } else {
        ShrinkCoherent(compress, before, pool.index, lmcache.cpuStore, latest, mirrored, source);
      }
    }

    /** The LMCache tier of a lookup. */
    method FromLmCache(h: Hash) returns (r: LookupResult<KV>)
      requires Valid() && h !in pool.index
      modifies this`hitCounts, this`missCounts, this`lookups, this`seen, this`source, pool, pool.slabs, lmcache`hits,
               lmcache`misses
      ensures Valid() && lookups == old(lookups) + 1
      ensures hitCounts == Bumped(old(hitCounts), TierOf(r))
      ensures !r.Warm? && (r.Offloaded? <==> h in lmcache.cpuStore)
      ensures r.Offloaded? ==> r.kv == lmcache.cpuStore[h] && seen == old(seen) + {h}
      ensures source == if r.Offloaded? && h in pool.index then old(source)[h := r.kv] else old(source)
      ensures r.Missed? ==> r.reason == Refined(LmCacheMiss, h in old(seen)) && seen == old(seen)
      ensures r.Missed? ==> pool.index == old(pool.index)
      ensures r.Offloaded? ==> (h in pool.index <==> Outcome(old(pool.missing), compress(None, r.kv)) == Some(true))
    {
      if !lmcache.enabled {
        r := Miss(h, LmCacheDisabled);
        return;
      }
      var kv := lmcache.Lookup(h);
      if kv.None? {
        r := Miss(h, LmCacheMiss);
        return;
      }
      Promote(h);
      Count(h, G3LmCache);
      r := Offloaded(kv.value);
    }

    /** The tiers of a lookup, once the prefix is known to be long enough. */
    method FromTiers(h: Hash) returns (r: LookupResult<KV>)
      requires Valid()
      modifies this`hitCounts, this`missCounts, this`lookups, this`seen, this`source, pool, pool.slabs, lmcache`hits,
               lmcache`misses
      ensures Valid() && lookups == old(lookups) + 1
      ensures hitCounts == Bumped(old(hitCounts), TierOf(r))
      ensures r.Warm? ==> h in pool.index && h in latest && h in source && Encodes(compress, r.entry, source[h])
      ensures r.Offloaded? ==> h in lmcache.cpuStore && r.kv == lmcache.cpuStore[h]
      ensures source == if r.Offloaded? && h in pool.index then old(source)[h := r.kv] else old(source)
      ensures r.Missed? <==> h !in old(pool.index) && h !in lmcache.cpuStore
      ensures r.Warm? <==> h in old(pool.index)
      ensures r.Missed? ==> r.reason == Refined(LmCacheMiss, h in old(seen)) && seen == old(seen)
      ensures !r.Missed? ==> seen == old(seen) + {h}
      ensures r.Missed? ==> pool.index == old(pool.index)
      ensures r.Warm? ==> Refreshed(pool.index, old(pool.index), h, r.entry)
      ensures r.Offloaded? ==> (h in pool.index <==> Outcome(old(pool.missing), compress(None, r.kv)) == Some(true))
    {
      var e := FromPool(h);
      if e.Some? { return Warm(e.value); }
      r := FromLmCache(h);
    }

    /**
     lookup. A pool hit encodes the KV its entry was made from, which is the latest one unless an
     older LMCache copy was promoted; an LMCache hit is what LMCache holds. A lookup is cold
     exactly when the prefix is too short or neither tier has the hash.
     */
    method Lookup(h: Hash, numTokens: Option<nat>) returns (r: LookupResult<KV>)
      requires Valid()
      modifies this`hitCounts, this`missCounts, this`lookups, this`seen, this`source, pool, pool.slabs, lmcache`hits,
               lmcache`misses
      ensures Valid() && lookups == old(lookups) + 1
      ensures hitCounts == Bumped(old(hitCounts), TierOf(r))
      ensures r.Warm? ==> h in pool.index && h in latest && h in source && Encodes(compress, r.entry, source[h])
      ensures r.Offloaded? ==> h in latest && (Clean(h, lmcache.cpuStore, mirrored) ==> r.kv == latest[h])
      ensures r.Warm? && Clean(h, lmcache.cpuStore, mirrored) ==> Encodes(compress, r.entry, latest[h])
      ensures r.Offloaded? ==> h in lmcache.cpuStore && r.kv == lmcache.cpuStore[h]
      ensures source == if r.Offloaded? && h in pool.index then old(source)[h := r.kv] else old(source)
      ensures r.Missed? <==> TooShort(numTokens) || (h !in old(pool.index) && h !in lmcache.cpuStore)
      ensures r.Warm? <==> !TooShort(numTokens) && h in old(pool.index)
      ensures r.Missed? ==>
        r.reason == if numTokens.Some? && numTokens.value < minPrefixTokens then PrefixTooShort
                    else if h in old(seen) then EvictedFromAmf else FirstRequest
      ensures seen == if r.Missed? then old(seen) else old(seen) + {h}
      ensures r.Missed? ==> pool.index == old(pool.index)
      ensures r.Warm? ==> Refreshed(pool.index, old(pool.index), h, r.entry)
      ensures r.Offloaded? ==> (h in pool.index <==> Outcome(old(pool.missing), compress(None, r.kv)) == Some(true))
      ensures writePolicy == Always && lmcache.enabled && h in latest && !TooShort(numTokens) ==> !r.Missed?
    {
      if TooShort(numTokens) {
        r := Miss(h, PrefixTooShort);
        return;
      }
      r := FromTiers(h);
    }

    /** The pool's part of a store, whether or not the KV is then mirrored. */
    method PutPrefill(h: Hash, kv: KV, format: Option<string>, savings: real) returns (ok: Option<bool>)
      requires Valid()
      modifies pool, pool.slabs
      ensures pool.Valid()
      ensures ok == Outcome(old(pool.missing), compress(format, kv)) && (ok.Some? ==> (ok.value <==> h in pool.index))
      ensures ok.None? ==> Coherent(compress, pool.index, lmcache.cpuStore, latest, mirrored, source)
      ensures ok.Some? ==>
        Coherent(compress, pool.index, lmcache.cpuStore[h := kv], latest[h := kv], mirrored + {h}, source[h := kv])
      ensures ok.Some? ==>
        Coherent(compress, pool.index, lmcache.cpuStore, latest[h := kv], mirrored - {h}, source[h := kv])
    {
      ghost var before := pool.index;
      ok := PutFromRaw(h, kv, format, savings);
      if ok.Some? {
        StoreCoherent(compress, before, pool.index, lmcache.cpuStore, latest, mirrored, source, h, kv, true);
        StoreCoherent(compress, before, pool.index, lmcache.cpuStore, latest, mirrored, source, h, kv, false);
      } else {
        ShrinkCoherent(compress, before, pool.index, lmcache.cpuStore, latest, mirrored, source);
      }
    }

    /** Records a KV as the latest one, once LMCache is as the policy wants it. */
    ghost method Record(h: Hash, kv: KV, mirror: bool)
      requires Sound() && h in seen && (writePolicy == Always && lmcache.enabled ==> mirror)
      requires Coherent(compress, pool.index, lmcache.cpuStore, latest[h := kv],
                        if mirror then mirrored + {h} else mirrored - {h}, source[h := kv])
      modifies this`latest, this`mirrored, this`source
      ensures Valid() && latest == old(latest)[h := kv] && source == old(source)[h := kv]
      ensures mirrored == if mirror then old(mirrored) + {h} else old(mirrored) - {h}
    {
      latest, source := latest[h := kv], source[h := kv];
      mirrored := if mirror then mirrored + {h} else mirrored - {h};
    }

    /** Mirrors a stored KV as the policy says, and records it as the latest. */
    method MirrorPrefill(h: Hash, kv: KV, numTokens: nat)
      requires Sound() && h in seen
      requires Coherent(compress, pool.index, lmcache.cpuStore[h := kv], latest[h := kv], mirrored + {h},
                        source[h := kv])
      requires Coherent(compress, pool.index, lmcache.cpuStore, latest[h := kv], mirrored - {h}, source[h := kv])
      modifies this`latest, this`mirrored, this`source, lmcache`cpuStore, lmcache`stores
      ensures Valid() && latest == old(latest)[h := kv] && source == old(source)[h := kv]
      ensures mirrored == if Mirrors(numTokens) then old(mirrored) + {h} else old(mirrored) - {h}
      ensures lmcache.cpuStore == if Mirrors(numTokens) then old(lmcache.cpuStore)[h := kv] else old(lmcache.cpuStore)
    {
      if ShouldMirror(writePolicy, numTokens, largeWriteThreshold, false) {
        var _ := lmcache.Store(h, kv);
      }
      Record(h, kv, Mirrors(numTokens));
    }

    /**
     store_after_prefill. None when put_from_raw raises, in which case nothing is stored and
     nothing is mirrored.
     */
    method StoreAfterPrefill(h: Hash, numTokens: nat, kv: KV, savings: real, format: Option<string>)
      returns (ok: Option<bool>)
      requires Valid()
      modifies this`seen, this`latest, this`mirrored, this`source, pool, pool.slabs, lmcache`cpuStore, lmcache`stores
      ensures Valid() && seen == old(seen) + {h}
      ensures ok == Outcome(old(pool.missing), compress(format, kv)) && (ok.Some? ==> (ok.value <==> h in pool.index))
      ensures ok.None? ==>
        latest == old(latest) && mirrored == old(mirrored) && lmcache.cpuStore == old(lmcache.cpuStore)
      ensures ok.Some? ==> latest == old(latest)[h := kv] && source == old(source)[h := kv]
      ensures ok.Some? ==>
        lmcache.cpuStore ==
          if lmcache.enabled &&
             (writePolicy == Always || (writePolicy == LargeOnly && numTokens >= largeWriteThreshold))
          then old(lmcache.cpuStore)[h := kv] else old(lmcache.cpuStore)
      ensures ok.Some? ==> mirrored == if Mirrors(numTokens) then old(mirrored) + {h} else old(mirrored) - {h}
    {
      seen := seen + {h};
      ok := PutPrefill(h, kv, format, savings);
      if ok.Some? {
        MirrorPrefill(h, kv, numTokens);
      }
    }

    /** The pool is cleared under the router. */
    method ClearPool()
      requires Valid()
      modifies pool
      ensures Valid() && pool.index == map[]
    {
      ghost var before := pool.index;
      pool.Clear();
      ShrinkCoherent(compress, before, pool.index, lmcache.cpuStore, latest, mirrored, source);
    }

    /** A store of a tensor with no more layers than the pool does not raise. */
    method StoreFitting(h: Hash, numTokens: nat, kv: KV, format: Option<string>)
      requires Valid() && compress(format, kv).Some? && |compress(format, kv).value.blobs| <= pool.numLayers
      modifies this`seen, this`latest, this`mirrored, this`source, pool, pool.slabs, lmcache`cpuStore, lmcache`stores
      ensures Valid() && latest == old(latest)[h := kv]
      ensures lmcache.cpuStore == if Mirrors(numTokens) then old(lmcache.cpuStore)[h := kv] else old(lmcache.cpuStore)
    {
      var stored := StoreAfterPrefill(h, numTokens, kv, 0.0, format);
    }

    /**
     A stale read. Under LARGE_ONLY a large store is mirrored and a small one of the same hash is
     not; once the pool entry is gone, LMCache returns the first KV though the second is latest.
     */
    method StaleRead(h: Hash, large: nat, small: nat, first: KV, second: KV, format: Option<string>)
      returns (r: LookupResult<KV>)
      requires Valid() && writePolicy == LargeOnly && lmcache.enabled && small < largeWriteThreshold <= large
      requires compress(format, first).Some? && |compress(format, first).value.blobs| <= pool.numLayers
      requires compress(format, second).Some? && |compress(format, second).value.blobs| <= pool.numLayers
      modifies this, pool, pool.slabs, lmcache
      ensures Valid() && h in latest && latest[h] == second && r == Offloaded(first)
    {
      StoreFitting(h, large, first, format);
      StoreFitting(h, small, second, format);
      r := LookupCleared(h);
    }

    /** With the pool cleared, a hash that LMCache holds is served from there. */
    method LookupCleared(h: Hash) returns (r: LookupResult<KV>)
      requires Valid() && h in lmcache.cpuStore
      modifies this`hitCounts, this`missCounts, this`lookups, this`seen, this`source, pool, pool.slabs, lmcache`hits,
               lmcache`misses
      ensures Valid() && r == Offloaded(lmcache.cpuStore[h])
    {
      ClearPool();
      r := Lookup(h, None);
    }

    /** The configured policy never mirrors a prefill. */
    ghost predicate NeverMirrors() {
      !lmcache.enabled || writePolicy == Never || writePolicy == OnEviction
    }

    /** One operation. */
    method Perform(op: Op<KV>) returns (r: Option<LookupResult<KV>>)
      requires Valid()
      modifies this, pool, pool.slabs, lmcache
      ensures Valid() && (r.Some? <==> op.Find?)
      ensures NeverMirrors() ==> lmcache.cpuStore == old(lmcache.cpuStore)
      ensures r.Some? && r.value.Missed? ==> Explains(r.value.reason, op, minPrefixTokens, op.h in old(seen))
      ensures seen == if Touches(op, r) then old(seen) + {op.h} else old(seen)
    {
      match op {
        case Store(h, numTokens, kv, savings, format) =>
          var _ := StoreAfterPrefill(h, numTokens, kv, savings, format);
          r := None;
        case Find(h, length) =>
          var found := Lookup(h, length);
          r := Some(found);
      }
    }

    /**
     Any sequence of stores and lookups. A policy that never mirrors leaves LMCache as it was, and a
     lookup misses as a first request if and only if its hash was not known and nothing before it
     stored or hit it.
     */
    method Serve(ops: seq<Op<KV>>) returns (results: seq<Option<LookupResult<KV>>>)
      requires Valid()
      modifies this, pool, pool.slabs, lmcache
      ensures Valid() && |results| == |ops|
      ensures NeverMirrors() ==> lmcache.cpuStore == old(lmcache.cpuStore)
      ensures Told(ops, results, minPrefixTokens, old(seen), seen)
    {
      results := [];
      for i := 0 to |ops|
        invariant Valid() && |results| == i
        invariant NeverMirrors() ==> lmcache.cpuStore == old(lmcache.cpuStore)
        invariant Told(ops, results, minPrefixTokens, old(seen), seen)
      {
        ghost var before := seen;
        var r := Perform(ops[i]);
        ToldNext(ops, results, r, minPrefixTokens, old(seen), before, seen);
        results := results + [r];
      }
    }
  }
}
