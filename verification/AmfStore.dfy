/**
 The AMF store: an entry vector with its index, byte accounting, token and KV files, tiered
 budget eviction, expiry, longest-prefix lookup and storing.

 A file is known by its entry's key, from which its path is built. A file that cannot be read
 back (missing, empty or cut inside a token) is absent from its map. Clocks, the disk guard and
 the success of a write are not determined.
 */
module AmfStorage {
  import opened Wrappers
  import opened Fnv
  import opened Llama
  import opened AmfModel

  /** The outcome of a longest-prefix lookup. */
  datatype Lookup<D> = Hit(entry: Entry<D>, tokens: seq<Token>) | FirstRun | ShortPrefix | HashMismatch | TokenMismatch
                     | LoadFailed

  /** One budget eviction: the entries before it, the victim and the time. */
  datatype Eviction<D> = Eviction(before: seq<Entry<D>>, victim: nat, now: nat)

  ghost predicate NoneIn<D>(c: Config, es: seq<Entry<D>>, tier: Tier, now: nat) {
    forall i :: 0 <= i < |es| ==> Classify(c, es[i], now) != tier
  }

  /** The first entry of the tier than which no other entry of the tier is a better victim. */
  ghost predicate BestIn<D>(c: Config, es: seq<Entry<D>>, tier: Tier, now: nat, best: nat) {
    && best < |es| && Classify(c, es[best], now) == tier
    && forall j :: 0 <= j < |es| && Classify(c, es[j], now) == tier ==>
         !Better(c.policy, es[j], es[best]) && (j < best ==> Better(c.policy, es[best], es[j]))
  }

  /** Over the watermark, cold goes before warm and warm before hot, and hot only past the critical mark. */
  ghost predicate Justified<D>(c: Config, s: Eviction<D>, incoming: nat) {
    var bytes := SumBytes(s.before) + incoming;
    && !c.Below(bytes, c.watermark)
    && (|| BestIn(c, s.before, Cold, s.now, s.victim)
        || (NoneIn(c, s.before, Cold, s.now) && BestIn(c, s.before, Warm, s.now, s.victim))
        || (NoneIn(c, s.before, Cold, s.now) && NoneIn(c, s.before, Warm, s.now) && !c.Below(bytes, CRITICAL) &&
            BestIn(c, s.before, Hot, s.now, s.victim)))
  }

  /** The entries left by a run of evictions, each of them justified when it happened. */
  ghost predicate EvictionRun<D>(c: Config, before: seq<Entry<D>>, steps: seq<Eviction<D>>, after: seq<Entry<D>>,
                                 incoming: nat)
  {
    if steps == [] then after == before
    else
      var last := steps[|steps| - 1];
      && Justified(c, last, incoming) && last.victim < |last.before|
      && after == RemoveAt(last.before, last.victim)
      && EvictionRun(c, before, steps[..|steps| - 1], last.before, incoming)
  }

  lemma EvictionRunExtends<D>(c: Config, before: seq<Entry<D>>, steps: seq<Eviction<D>>, incoming: nat,
                              step: Eviction<D>)
    requires EvictionRun(c, before, steps, step.before, incoming)
    requires Justified(c, step, incoming) && step.victim < |step.before|
    ensures EvictionRun(c, before, steps + [step], RemoveAt(step.before, step.victim), incoming)
  {
    assert (steps + [step])[..|steps|] == steps;
  }

  /** A run of evictions only ever removes entries. */
  lemma {:induction false} EvictionRunShrinks<D>(c: Config, before: seq<Entry<D>>, steps: seq<Eviction<D>>,
                                                 after: seq<Entry<D>>, incoming: nat)
    requires EvictionRun(c, before, steps, after, incoming)
    ensures |after| + |steps| == |before|
    ensures forall i :: 0 <= i < |after| ==> after[i] in before
  {
    if steps != [] {
      EvictionRunShrinks(c, before, steps[..|steps| - 1], steps[|steps| - 1].before, incoming);
    }
  }

  /** Subtraction that stops at zero. */
  function Minus(a: nat, b: nat): nat {
    if b <= a then a - b else 0
  }

  ghost predicate Sized<D>(es: seq<Entry<D>>) {
    forall i :: 0 <= i < |es| ==> es[i].sizeBytes == es[i].kvSize > 0
  }

  lemma RemoveDistinct<D>(es: seq<Entry<D>>, index: map<Key<D>, nat>, i: nat)
    requires Indexed(es, index) && i < |es|
    ensures DistinctKeys(RemoveAt(es, i))
  {
  }

  /** Keys being distinct, removing one entry removes only that entry. */
  lemma RemoveOne<D>(es: seq<Entry<D>>, index: map<Key<D>, nat>, i: nat)
    requires Indexed(es, index) && i < |es|
    ensures forall e :: e in RemoveAt(es, i) <==> e in es && e.key != es[i].key
  {
    var r := RemoveAt(es, i);
    forall e | e in r
      ensures e in es && e.key != es[i].key
    {
      var j :| 0 <= j < |r| && r[j] == e;
    }
    forall e | e in es && e.key != es[i].key
      ensures e in r
    {
      var j :| 0 <= j < |es| && es[j] == e;
      assert r[if j < i then j else j - 1] == e;
    }
  }

  /** The other entries stay as they are marked when one entry goes, whatever becomes of its files. */
  lemma RemoveMarked<D(!new)>(h: Hasher<D>, es: seq<Entry<D>>, index: map<Key<D>, nat>, toks: map<Key<D>, seq<Token>>,
                              toks': map<Key<D>, seq<Token>>, kvs: map<Key<D>, seq<Byte>>, kvs': map<Key<D>, seq<Byte>>,
                              offers: set<Offer<D>>, suspect: set<Key<D>>, i: nat)
    requires Indexed(es, index) && i < |es| && Marked(h, es, toks, kvs, offers, suspect)
    requires SameElsewhere(toks', toks, es[i].key) && SameElsewhere(kvs', kvs, es[i].key)
    ensures Marked(h, RemoveAt(es, i), toks', kvs', offers, suspect - {es[i].key})
  {
    var k, r := es[i].key, RemoveAt(es, i);
    forall j | 0 <= j < |r|
      ensures r[j].key in suspect - {k} <==> !Trusted(h, r[j], toks', kvs', offers)
    {
      TrustedElsewhere(h, r[j], toks, toks', kvs, kvs', offers, offers, k);
    }
  }

  /** Removing one entry keeps all that does not mention the index. */
  lemma RemoveKeeps<D(!new)>(h: Hasher<D>, es: seq<Entry<D>>, index: map<Key<D>, nat>, toks: map<Key<D>, seq<Token>>,
                             toks': map<Key<D>, seq<Token>>, kvs: map<Key<D>, seq<Byte>>, kvs': map<Key<D>, seq<Byte>>,
                             offers: set<Offer<D>>, suspect: set<Key<D>>, i: nat)
    requires Indexed(es, index) && i < |es| && Sized(es) && Marked(h, es, toks, kvs, offers, suspect)
    requires SameElsewhere(toks', toks, es[i].key) && SameElsewhere(kvs', kvs, es[i].key)
    ensures DistinctKeys(RemoveAt(es, i)) && Sized(RemoveAt(es, i))
    ensures Marked(h, RemoveAt(es, i), toks', kvs', offers, suspect - {es[i].key})
    ensures SumBytes(es) == SumBytes(RemoveAt(es, i)) + EntryBytes(es[i])
  {
    SumRemove(es, i);
    RemoveDistinct(es, index, i);
    RemoveMarked(h, es, index, toks, toks', kvs, kvs', offers, suspect, i);
  }

  /** Files after an attempt to remove one. */
  function Unlinked<D(==), T>(files: map<Key<D>, T>, k: Key<D>, removed: bool): (r: map<Key<D>, T>)
    ensures SameElsewhere(r, files, k)
  {
    if removed then files - {k} else files
  }

  /** Marks belong to entries, and go with them. */
  lemma MarksShrink<D>(es: seq<Entry<D>>, index: map<Key<D>, nat>, index': map<Key<D>, nat>, suspect: set<Key<D>>,
                       i: nat)
    requires Indexed(es, index) && i < |es| && Indexed(RemoveAt(es, i), index') && suspect <= index.Keys
    ensures suspect - {es[i].key} <= index'.Keys
  {
    forall k | k in suspect && k != es[i].key ensures k in index' {
      var j := index[k];
      assert RemoveAt(es, i)[if j < i then j else j - 1].key == k;
    }
  }

  /** Stored for another model, or past its time. */
  predicate Stale<D>(c: Config, ctx: Context, e: Entry<D>, now: nat) {
    || (c.modelVersionCheck && e.modelHash != 0 && e.modelHash != ctx.modelHash)
    || Expired(e, now)
  }

  /** The entry is filed under the first n tokens and says it has that length. */
  predicate Filed<D(==)>(h: Hasher<D>, ctx: Context, tokens: seq<Token>, n: nat, e: Entry<D>) {
    n <= |tokens| && e.prefixLen == n && e.key == KeyOf(h, ctx, tokens[..n])
  }

  /** The lookup has passed this entry: it is filed under a prefix longer than n. */
  predicate Passed<D(==)>(h: Hasher<D>, ctx: Context, tokens: seq<Token>, n: int, e: Entry<D>) {
    n < e.prefixLen && Filed(h, ctx, tokens, e.prefixLen, e)
  }

  /** At most one entry is filed under a prefix: the one the index gives for its key. */
  lemma FiledOnce<D(!new)>(h: Hasher<D>, es: seq<Entry<D>>, index: map<Key<D>, nat>, ctx: Context, tokens: seq<Token>,
                           n: nat)
    requires Indexed(es, index) && n <= |tokens|
    ensures forall e :: e in es && e.key == KeyOf(h, ctx, tokens[..n]) ==> e.key in index && e == es[index[e.key]]
  {
    forall e | e in es && e.key == KeyOf(h, ctx, tokens[..n])
      ensures e.key in index && e == es[index[e.key]]
    {
      var i :| 0 <= i < |es| && es[i] == e;
    }
  }

  /** What the token file of a live candidate decides. */
  function Verdict<D(==)>(toks: map<Key<D>, seq<Token>>, e: Entry<D>, prefix: seq<Token>): Lookup<D> {
    if e.key !in toks then LoadFailed
    else if toks[e.key] != prefix then TokenMismatch
    else Hit(e, prefix)
  }

  /** The lookup on unchanging values: the longest prefix from n down that has a live entry decides. */
  ghost function Scan<D>(c: Config, h: Hasher<D>, es: seq<Entry<D>>, index: map<Key<D>, nat>,
                         toks: map<Key<D>, seq<Token>>, ctx: Context, tokens: seq<Token>, now: nat, n: nat): Lookup<D>
    requires n <= |tokens|
  {
    if n == 0 || n < c.minTokens then HashMismatch
    else
      var key := KeyOf(h, ctx, tokens[..n]);
      if key in index && index[key] < |es| && es[index[key]].prefixLen == n && !Stale(c, ctx, es[index[key]], now) then
        Verdict(toks, es[index[key]], tokens[..n])
      else Scan(c, h, es, index, toks, ctx, tokens, now, n - 1)
  }

  lemma ScanSkips<D>(c: Config, h: Hasher<D>, es: seq<Entry<D>>, index: map<Key<D>, nat>, toks: map<Key<D>, seq<Token>>,
                     ctx: Context, tokens: seq<Token>, now: nat, n: nat)
    requires Indexed(es, index) && 0 < n <= |tokens| && c.minTokens <= n
    requires forall e :: e in es && Filed(h, ctx, tokens, n, e) ==> Stale(c, ctx, e, now)
    ensures Scan(c, h, es, index, toks, ctx, tokens, now, n) == Scan(c, h, es, index, toks, ctx, tokens, now, n - 1)
  {
  }

  lemma ScanFinds<D(!new)>(c: Config, h: Hasher<D>, es: seq<Entry<D>>, index: map<Key<D>, nat>,
                           toks: map<Key<D>, seq<Token>>, ctx: Context, tokens: seq<Token>, now: nat, n: nat,
                           e: Entry<D>)
    requires Indexed(es, index) && 0 < n <= |tokens| && c.minTokens <= n
    requires e in es && Filed(h, ctx, tokens, n, e) && !Stale(c, ctx, e, now)
    ensures Scan(c, h, es, index, toks, ctx, tokens, now, n) == Verdict(toks, e, tokens[..n])
  {
    FiledOnce(h, es, index, ctx, tokens, n);
  }

  /** A file is there in both maps with the same content, or in neither. */
  ghost predicate SameFile<D, T>(files: map<Key<D>, T>, before: map<Key<D>, T>, k: Key<D>) {
    (k in files <==> k in before) && (k in files ==> files[k] == before[k])
  }

  lemma OthersKeepFiles<D(!new), T>(files: map<Key<D>, T>, before: map<Key<D>, T>, gone: Key<D>)
    requires SameElsewhere(files, before, gone)
    ensures forall k :: k != gone ==> SameFile(files, before, k)
  {
    forall k | k != gone ensures SameFile(files, before, k) {
      assert k in files ==> k in files - {gone} && (files - {gone})[k] == files[k];
      assert k in before ==> k in before - {gone} && (before - {gone})[k] == before[k];
    }
  }

  /** The scan stands between what it kept and what is to come. */
  lemma ScanNext<T>(kept: seq<T>, s: seq<T>, n: nat)
    requires n < |s|
    ensures (kept + s[n..])[|kept|] == s[n]
    ensures RemoveAt(kept + s[n..], |kept|) == kept + s[n + 1..]
    ensures kept + s[n..] == kept + [s[n]] + s[n + 1..]
  {
  }

  /** The first `seen` entries have been looked at, `kept` of them stay, and the rest follow. */
  ghost predicate Swept<D>(c: Config, now: nat, before: seq<Entry<D>>, seen: nat, kept: seq<Entry<D>>,
                           es: seq<Entry<D>>)
  {
    seen <= |before| && kept == Unexpired(c, now, before[..seen]) && es == kept + before[seen..]
  }

  lemma SweptNext<D>(c: Config, now: nat, before: seq<Entry<D>>, seen: nat, kept: seq<Entry<D>>, es: seq<Entry<D>>)
    requires Swept(c, now, before, seen, kept, es) && |kept| < |es|
    ensures seen < |before| && es[|kept|] == before[seen]
    ensures if Expired(es[|kept|], now) || TooOld(c, es[|kept|], now)
            then Swept(c, now, before, seen + 1, kept, RemoveAt(es, |kept|))
            else Swept(c, now, before, seen + 1, kept + [before[seen]], es)
  {
    assert before[..seen + 1][..seen] == before[..seen];
    ScanNext(kept, before, seen);
  }

  /** The entry written for a new key. */
  function NewEntry<D>(c: Config, h: Hasher<D>, ctx: Context, tokens: seq<Token>, kv: seq<Byte>, savedMs: nat,
                       now: nat): Entry<D>
  {
    Entry(KeyOf(h, ctx, tokens), ctx.modelHash, |tokens| % 0x1_0000_0000,
          1, 0, None, None, None, 0, 0, savedMs, 0,
          now, 0, 0,
          |kv|, now, 0, now, if c.defaultTtl > 0 then now + c.effectiveTtl(0) else 0,
          |kv|, h.Bytes(kv), StateHot)
  }

  /** The entry written over an existing one: contents and lease are new, history is kept. */
  function Renewed<D>(c: Config, h: Hasher<D>, prev: Entry<D>, ctx: Context, tokens: seq<Token>, kv: seq<Byte>,
                      savedMs: nat, now: nat): Entry<D>
  {
    var ttl := c.effectiveTtl(prev.accessCount);
    prev.(modelHash := ctx.modelHash, prefixLen := |tokens| % 0x1_0000_0000, seenCount := prev.seenCount + 1,
          savedMs := savedMs, lastUsed := now, kvSize := |kv|, sizeBytes := |kv|, checksum := h.Bytes(kv),
          state := StateHot,
          expiresAt := if ttl > 0 then now + ttl else prev.expiresAt)
  }

  /** The entries with the one of this prompt renewed, or a new one at the end. */
  function Placed<D(==)>(c: Config, h: Hasher<D>, es: seq<Entry<D>>, index: map<Key<D>, nat>, ctx: Context,
                         tokens: seq<Token>, kv: seq<Byte>, savedMs: nat, now: nat): seq<Entry<D>>
  {
    var key := KeyOf(h, ctx, tokens);
    if key in index && index[key] < |es| then
      es[index[key] := Renewed(c, h, es[index[key]], ctx, tokens, kv, savedMs, now)]
    else es + [NewEntry(c, h, ctx, tokens, kv, savedMs, now)]
  }

  /** A key absent before some entries went is absent afterwards. */
  lemma StaysNew<D>(before: seq<Entry<D>>, was: map<Key<D>, nat>, es: seq<Entry<D>>, index: map<Key<D>, nat>,
                    key: Key<D>)
    requires Indexed(before, was) && Indexed(es, index) && key !in was
    requires forall i :: 0 <= i < |es| ==> es[i] in before
    ensures key !in index
  {
  }

  /** The eviction loop would run for this many more bytes. */
  predicate Overflows(c: Config, bytes: nat, incoming: nat) {
    c.Budget() > 0 && incoming <= c.Budget() && !c.Below(bytes + incoming, c.watermark)
  }

  /** Some entry may be evicted at this time: a cold or warm one, or past the critical mark any. */
  ghost predicate HasVictim<D>(c: Config, es: seq<Entry<D>>, bytes: nat, now: nat) {
    !NoneIn(c, es, Cold, now) || !NoneIn(c, es, Warm, now) || (!c.Below(bytes, CRITICAL) && !NoneIn(c, es, Hot, now))
  }

  /** Making room for this many bytes evicts something, the clock first showing this time. */
  ghost predicate Evicts<D>(c: Config, es: seq<Entry<D>>, bytes: nat, incoming: nat, now: nat) {
    Overflows(c, bytes, incoming) && HasVictim(c, es, bytes + incoming, now)
  }

  /** The bytes accounted to a key. */
  function SizeIn<D(==)>(es: seq<Entry<D>>, index: map<Key<D>, nat>, key: Key<D>): nat {
    if key in index && index[key] < |es| then es[index[key]].kvSize else 0
  }

  /** The bytes that storing this many under a key asks room for. */
  function Growth<D(==)>(es: seq<Entry<D>>, index: map<Key<D>, nat>, key: Key<D>, size: nat): nat {
    if size > SizeIn(es, index, key) then size - SizeIn(es, index, key) else 0
  }

  /** A key has an entry, and replacing it by a larger one makes others go. */
  ghost predicate Crowds<D>(c: Config, es: seq<Entry<D>>, index: map<Key<D>, nat>, bytes: nat, key: Key<D>, size: nat,
                            now: nat)
  {
    key in index && Growth(es, index, key, size) > 0 && Evicts(c, es, bytes, Growth(es, index, key, size), now)
  }

  /** Past the critical mark every replacement that grows makes an entry go, whatever the clock shows. */
  lemma CriticalCrowds<D>(c: Config, es: seq<Entry<D>>, index: map<Key<D>, nat>, bytes: nat, key: Key<D>, size: nat,
                          now: nat)
    requires Indexed(es, index) && key in index && Growth(es, index, key, size) > 0
    requires Overflows(c, bytes, Growth(es, index, key, size))
    requires !c.Below(bytes + Growth(es, index, key, size), CRITICAL)
    ensures Crowds(c, es, index, bytes, key, size, now)
  {
    match Classify(c, es[index[key]], now) {
      case Cold => assert !NoneIn(c, es, Cold, now);
      case Warm => assert !NoneIn(c, es, Warm, now);
      case Hot => assert !NoneIn(c, es, Hot, now);
    }
  }

  lemma NoEvictions<D>(c: Config, es: seq<Entry<D>>, incoming: nat)
    ensures EvictionRun(c, es, [], es, incoming)
  {
  }

  /** The ROI sample of one restore. */
  function RoiOf(restoreMs: nat, savedMs: nat): real {
    if restoreMs > 0 then savedMs as real / restoreMs as real else 0.0
  }

  /** An entry after a hit, before the ROI limits are applied. */
  function HitEntry<D>(c: Config, e: Entry<D>, restoreMs: nat, savedMs: nat, now: nat): Entry<D> {
    var ttl := c.effectiveTtl(e.accessCount + 1);
    e.(hitCount := e.hitCount + 1, accessCount := e.accessCount + 1, restoreCount := e.restoreCount + 1,
       lastUsed := now, lastAccess := now, lastHit := now, state := StateHot,
       expiresAt := if ttl > 0 then now + ttl else e.expiresAt,
       emaRestore := UpdateEma(e.emaRestore, restoreMs as real), emaSaved := UpdateEma(e.emaSaved, savedMs as real),
       emaRoi := UpdateEma(e.emaRoi, RoiOf(restoreMs, savedMs)))
  }

  /** The ROI decline streak after a hit on an entry: a 32-bit counter that stops at its maximum. */
  function Streak<D>(before: nat, e: Entry<D>, restoreMs: nat, savedMs: nat): nat {
    var roi := UpdateEma(e.emaRoi, RoiOf(restoreMs, savedMs));
    if e.emaRoi.Some? && roi.value < e.emaRoi.value then (if before < 0xFFFF_FFFF then before + 1 else before) else 0
  }

  const DECLINE_WARN := 3
  const DECLINE_STOP := 5

  /** Whether entries are dropped for low ROI at all. */
  predicate DropsLowRoi(c: Config) {
    c.minAdmitRoi > 0.0 && c.lowRoiHitLimit > 0
  }

  /** The low-ROI hits of an entry that has just been hit. */
  function LowRoiHits<D>(c: Config, e: Entry<D>): nat {
    if !DropsLowRoi(c) then e.lowRoiHits
    else if (if e.emaRoi.Some? then e.emaRoi.value else 0.0) >= c.minAdmitRoi then 0
    else if e.lowRoiHits < 0xFFFF_FFFF then e.lowRoiHits + 1
    else e.lowRoiHits
  }

  /** An entry after note_hit, the streak being the one after the hit. */
  function Noted<D>(c: Config, e: Entry<D>, restoreMs: nat, savedMs: nat, now: nat, streak: nat): Entry<D> {
    var hit := HitEntry(c, e, restoreMs, savedMs, now);
    hit.(failureCount := if streak == DECLINE_WARN then hit.failureCount + 1 else hit.failureCount,
         lowRoiHits := LowRoiHits(c, hit))
  }

  /** Overwriting an entry's bookkeeping, or its contents together with its files, keeps the store consistent. */
  lemma UpdateKeeps<D>(h: Hasher<D>, es: seq<Entry<D>>, index: map<Key<D>, nat>, toks: map<Key<D>, seq<Token>>,
                       kvs: map<Key<D>, seq<Byte>>, offers: set<Offer<D>>, suspect: set<Key<D>>, i: nat, e: Entry<D>)
    requires Indexed(es, index) && i < |es| && e.key == es[i].key
    requires Sized(es) && e.sizeBytes == e.kvSize > 0
    requires forall j :: 0 <= j < |es| && j != i ==> (es[j].key in suspect <==> !Trusted(h, es[j], toks, kvs, offers))
    requires e.key in suspect <==> !Trusted(h, e, toks, kvs, offers)
    ensures Indexed(es[i := e], index) && Sized(es[i := e]) && Marked(h, es[i := e], toks, kvs, offers, suspect)
    ensures SumBytes(es[i := e]) == SumBytes(es) - EntryBytes(es[i]) + EntryBytes(e)
  {
    SumUpdate(es, i, e);
  }

  lemma AppendListed<D>(es: seq<Entry<D>>, index: map<Key<D>, nat>, e: Entry<D>)
    requires Indexed(es, index) && e.key !in index && Sized(es) && e.sizeBytes == e.kvSize > 0
    ensures Indexed(es + [e], index[e.key := |es|]) && Sized(es + [e])
    ensures SumBytes(es + [e]) == SumBytes(es) + e.kvSize
  {
    assert (es + [e])[..|es|] == es;
  }

  lemma AppendMarked<D>(h: Hasher<D>, es: seq<Entry<D>>, toks: map<Key<D>, seq<Token>>, kvs: map<Key<D>, seq<Byte>>,
                        offers: set<Offer<D>>, suspect: set<Key<D>>, e: Entry<D>)
    requires Marked(h, es, toks, kvs, offers, suspect) && e.key !in suspect && Trusted(h, e, toks, kvs, offers)
    ensures Marked(h, es + [e], toks, kvs, offers, suspect)
  {
  }

  /** The marks with that of one key set anew. */
  ghost function Remarked<D>(h: Hasher<D>, es: seq<Entry<D>>, index: map<Key<D>, nat>, toks: map<Key<D>, seq<Token>>,
                             kvs: map<Key<D>, seq<Byte>>, offers: set<Offer<D>>, suspect: set<Key<D>>,
                             k: Key<D>): set<Key<D>>
  {
    if k in index && index[k] < |es| && !Trusted(h, es[index[k]], toks, kvs, offers) then suspect + {k}
    else suspect - {k}
  }

  /** Whatever becomes of one key's files and offers, setting its mark anew makes all marks exact again. */
  lemma RemarkKeeps<D(!new)>(h: Hasher<D>, es: seq<Entry<D>>, index: map<Key<D>, nat>, toks: map<Key<D>, seq<Token>>,
                             toks': map<Key<D>, seq<Token>>, kvs: map<Key<D>, seq<Byte>>, kvs': map<Key<D>, seq<Byte>>,
                             offers: set<Offer<D>>, offers': set<Offer<D>>, suspect: set<Key<D>>, k: Key<D>)
    requires Indexed(es, index) && Marked(h, es, toks, kvs, offers, suspect)
    requires SameElsewhere(toks', toks, k) && SameElsewhere(kvs', kvs, k) && SameOffers(offers', offers, k)
    ensures Marked(h, es, toks', kvs', offers', Remarked(h, es, index, toks', kvs', offers', suspect, k))
  {
    var suspect' := Remarked(h, es, index, toks', kvs', offers', suspect, k);
    forall i | 0 <= i < |es|
      ensures es[i].key in suspect' <==> !Trusted(h, es[i], toks', kvs', offers')
    {
      if es[i].key != k {
        TrustedElsewhere(h, es[i], toks, toks', kvs, kvs', offers, offers', k);
      }
    }
  }

  /** Away from a key, rewriting its files changes no mark. */
  lemma RewriteMarked<D(!new)>(h: Hasher<D>, es: seq<Entry<D>>, toks: map<Key<D>, seq<Token>>,
                               kvs: map<Key<D>, seq<Byte>>, offers: set<Offer<D>>, suspect: set<Key<D>>, k: Key<D>,
                               tokens: seq<Token>, kv: seq<Byte>)
    requires Marked(h, es, toks, kvs, offers, suspect)
    ensures OthersMarked(h, es, toks[k := tokens], kvs[k := kv], offers, suspect - {k}, k)
  {
    forall i | 0 <= i < |es| && es[i].key != k
      ensures es[i].key in suspect - {k} <==> !Trusted(h, es[i], toks[k := tokens], kvs[k := kv], offers)
    {
      TrustedElsewhere(h, es[i], toks, toks[k := tokens], kvs, kvs[k := kv], offers, offers, k);
    }
  }

  ghost predicate OthersMarked<D>(h: Hasher<D>, es: seq<Entry<D>>, toks: map<Key<D>, seq<Token>>,
                                  kvs: map<Key<D>, seq<Byte>>, offers: set<Offer<D>>, suspect: set<Key<D>>, k: Key<D>)
  {
    forall i :: 0 <= i < |es| && es[i].key != k ==> (es[i].key in suspect <==> !Trusted(h, es[i], toks, kvs, offers))
  }

  /** What went wrong with the files of a prompt: the token write, or the KV write and perhaps the removal after it. */
  datatype Fault = NoFault | TornTokens(n: nat) | TornKv(m: nat, removed: bool) | Dangling

  /** The tokens collide with a proper prefix of themselves that an entry of this key claims as its length. */
  ghost predicate SelfColliding<D>(h: Hasher<D>, es: seq<Entry<D>>, ctx: Context, tokens: seq<Token>) {
    exists i :: 0 <= i < |es| && es[i].key == KeyOf(h, ctx, tokens) && es[i].prefixLen < |tokens| &&
                KeyOf(h, ctx, tokens[..es[i].prefixLen]) == KeyOf(h, ctx, tokens)
  }

  /**
   The fault cannot have marked a key: nothing went wrong, the token file was removed, or no token
   file of it misleads.
   */
  ghost predicate Harmless<D>(h: Hasher<D>, es: seq<Entry<D>>, index: map<Key<D>, nat>, ctx: Context,
                              tokens: seq<Token>, fault: Fault)
  {
    match fault
    case NoFault => true
    case TornTokens(_) => !SelfColliding(h, es, ctx, tokens)
    case TornKv(_, removed) => removed || KeyOf(h, ctx, tokens) !in index
    case Dangling => false
  }

  /** A fault that is harmless among some entries is harmless among fewer of them. */
  lemma HarmlessLess<D>(h: Hasher<D>, es: seq<Entry<D>>, index: map<Key<D>, nat>, es': seq<Entry<D>>,
                        index': map<Key<D>, nat>, ctx: Context, tokens: seq<Token>, fault: Fault)
    requires Indexed(es, index) && Indexed(es', index') && forall i :: 0 <= i < |es'| ==> es'[i] in es
    requires Harmless(h, es, index, ctx, tokens, fault)
    ensures Harmless(h, es', index', ctx, tokens, fault)
  {
    if fault.TornKv? && KeyOf(h, ctx, tokens) !in index {
      StaysNew(es, index, es', index', KeyOf(h, ctx, tokens));
    }
  }

  /** The KV files after a failed write: the file cut short, or untouched if it could not be opened. */
  function Cut<D(==)>(kvs: map<Key<D>, seq<Byte>>, k: Key<D>, kv: seq<Byte>, m: nat): map<Key<D>, seq<Byte>> {
    if m < |kv| then kvs[k := kv[..m]] else kvs
  }

  class AmfStore<D(==, !new)> {
    const config: Config
    const hash: Hasher<D>
    var entries: seq<Entry<D>>
    var index: map<Key<D>, nat>
    var totalBytes: nat
    var tokFiles: map<Key<D>, seq<Token>>
    var kvFiles: map<Key<D>, seq<Byte>>
    var roiDeclineStreak: nat
    var admissionsDisabled: bool

    ghost var ioFaults: nat             // writes that have failed
    ghost var offers: set<Offer<D>>     // everything store_entry was ever given
    ghost var suspect: set<Key<D>>      // keys of entries whose files name tokens the bytes were not offered for

    ghost predicate Valid()
      reads this
    {
      && config.Valid()
      && Indexed(entries, index)
      && totalBytes == SumBytes(entries)
      && Sized(entries)
      && Marked(hash, entries, tokFiles, kvFiles, offers, suspect)
      && suspect <= index.Keys
    }

    constructor (config: Config, hash: Hasher<D>)
      requires config.Valid()
      ensures Valid() && this.config == config && this.hash == hash && entries == [] && totalBytes == 0
      ensures offers == {} && suspect == {} && !admissionsDisabled && roiDeclineStreak == 0 && ioFaults == 0
    {
      this.config, this.hash := config, hash;
      entries, index, totalBytes := [], map[], 0;
      tokFiles, kvFiles := map[], map[];
      roiDeclineStreak, admissionsDisabled := 0, false;
      offers, suspect, ioFaults := {}, {}, 0;
    }

    /** The index is cleared and refilled from the entry vector. */
    method Rebuild()
      requires DistinctKeys(entries)
      modifies this`index
      ensures Indexed(entries, index)
    {
      index := map[];
      for i := 0 to |entries|
        invariant Indexed(entries[..i], index)
      {
        index := index[entries[i].key := i];
        assert entries[..i + 1] == entries[..i] + [entries[i]];
      }
      assert entries[..|entries|] == entries;
    }

    /** The part of an eviction before the index is rebuilt; removing a file may fail, which is ignored. */
    method Erase(idx: nat)
      requires Valid() && idx < |entries|
      modifies this`entries, this`totalBytes, this`tokFiles, this`kvFiles, this`suspect
      ensures DistinctKeys(entries) && Sized(entries) && totalBytes == SumBytes(entries)
      ensures Marked(hash, entries, tokFiles, kvFiles, offers, suspect)
      ensures entries == RemoveAt(old(entries), idx)
      ensures suspect == old(suspect) - {old(entries[idx].key)}
      ensures SameElsewhere(tokFiles, old(tokFiles), old(entries[idx].key))
      ensures SameElsewhere(kvFiles, old(kvFiles), old(entries[idx].key))
      ensures totalBytes + EntryBytes(old(entries[idx])) == old(totalBytes)
    {
      var key, bytes := entries[idx].key, EntryBytes(entries[idx]);
      var noKv: bool, noTok: bool := *, *;
      var kvs, toks := Unlinked(kvFiles, key, noKv), Unlinked(tokFiles, key, noTok);
      RemoveKeeps(hash, entries, index, tokFiles, toks, kvFiles, kvs, offers, suspect, idx);
      ghost var es, marks := RemoveAt(entries, idx), suspect - {key};
      assert Marked(hash, es, toks, kvs, offers, marks);
      kvFiles, tokFiles := kvs, toks;
      totalBytes := Minus(totalBytes, bytes);
      entries := RemoveAt(entries, idx);
      suspect := marks;
    }

    /** evict_entry_at: the entry goes, its files too if they can be removed; an index out of range is ignored. */
    method EvictAt(idx: nat)
      requires Valid()
      modifies this`entries, this`index, this`totalBytes, this`tokFiles, this`kvFiles, this`suspect
      ensures Valid()
      ensures idx >= |old(entries)| ==>
        entries == old(entries) && tokFiles == old(tokFiles) && kvFiles == old(kvFiles) && suspect == old(suspect)
      ensures idx < |old(entries)| ==>
        entries == RemoveAt(old(entries), idx) && suspect == old(suspect) - {old(entries)[idx].key}
      ensures idx < |old(entries)| ==> SameElsewhere(tokFiles, old(tokFiles), old(entries)[idx].key)
      ensures idx < |old(entries)| ==> SameElsewhere(kvFiles, old(kvFiles), old(entries)[idx].key)
      ensures totalBytes <= old(totalBytes)
    {
      if idx >= |entries| { return; }
      ghost var before, was, marks := entries, index, suspect;
      Erase(idx);
      Rebuild();
      MarksShrink(before, was, index, marks, idx);
    }

    /** pick_budget_eviction_candidate: one pass keeping the first best entry of the tier. */
    method Pick(tier: Tier, now: nat) returns (best: Option<nat>)
      ensures best.None? <==> NoneIn(config, entries, tier, now)
      ensures best.Some? ==> BestIn(config, entries, tier, now, best.value)
    {
      best := None;
      for i := 0 to |entries|
        invariant best.None? <==> NoneIn(config, entries[..i], tier, now)
        invariant best.Some? ==> BestIn(config, entries[..i], tier, now, best.value)
      {
        assert entries[..i + 1] == entries[..i] + [entries[i]];
        if Classify(config, entries[i], now) == tier {
          if best.None? || Better(config.policy, entries[i], entries[best.value]) {
            best := Some(i);
          }
        }
      }
      assert entries[..|entries|] == entries;
    }

    /** The victim of one round: cold, else warm, else hot if the critical mark is passed. */
    method Victim(incoming: nat, now: nat) returns (idx: Option<nat>)
      requires Valid() && !config.Below(totalBytes + incoming, config.watermark)
      ensures idx.Some? ==> Justified(config, Eviction(entries, idx.value, now), incoming)
      ensures idx.Some? <==> HasVictim(config, entries, totalBytes + incoming, now)
      ensures idx.None? && entries != [] ==> config.Below(totalBytes + incoming, CRITICAL)
    {
      idx := Pick(Cold, now);
      if idx.None? {
        idx := Pick(Warm, now);
      }
      if idx.None? && !config.Below(totalBytes + incoming, CRITICAL) {
        idx := Pick(Hot, now);
      }
      ghost var tiers := {Cold, Warm, Hot};
      assert entries != [] ==> Classify(config, entries[0], now) in tiers;
    }

    /** One round of the eviction loop; without a step there is room below the critical mark. */
    method EvictOnce(incoming: nat) returns (ghost step: Option<Eviction<D>>, more: bool, ghost now: nat)
      requires Valid() && !config.Below(totalBytes + incoming, config.watermark) && entries != []
      modifies this`entries, this`index, this`totalBytes, this`tokFiles, this`kvFiles, this`suspect
      ensures Valid() && suspect <= old(suspect) && totalBytes <= old(totalBytes) && more == step.Some?
      ensures more <==> HasVictim(config, old(entries), old(totalBytes) + incoming, now)
      ensures step.None? ==> unchanged(this) && config.Below(totalBytes + incoming, CRITICAL)
      ensures step.Some? ==> step.value.before == old(entries) && step.value.victim < |old(entries)|
      ensures step.Some? ==> Justified(config, step.value, incoming)
      ensures step.Some? ==> entries == RemoveAt(old(entries), step.value.victim)
    {
      var clock: nat := *;
      now := clock;
      var idx := Victim(incoming, clock);
      if idx.None? {
        return None, false, now;
      }
      step, more := Some(Eviction(entries, idx.value, now)), true;
      EvictAt(idx.value);
    }

    /**
     evict_if_needed: evicts one justified victim after another, and ends with room for the
     incoming bytes in the budget. `first` is the time shown when the first victim was looked for.
     */
    method EvictIfNeeded(incoming: nat) returns (evicted: bool, ghost steps: seq<Eviction<D>>, ghost first: nat)
      requires Valid()
      modifies this`entries, this`index, this`totalBytes, this`tokFiles, this`kvFiles, this`suspect
      ensures Valid()
      ensures EvictionRun(config, old(entries), steps, entries, incoming)
      ensures suspect <= old(suspect) && totalBytes <= old(totalBytes)
      ensures config.Budget() > 0 && incoming <= config.Budget() ==> totalBytes + incoming <= config.Budget()
      ensures evicted <==> steps != []
      ensures evicted <==> Evicts(config, old(entries), old(totalBytes), incoming, first)
      ensures !evicted ==> unchanged(this)
    {
      if config.Budget() == 0 || incoming > config.Budget() || config.Below(totalBytes + incoming, config.watermark) {
        MarkIsBelow(totalBytes + incoming, config.watermark);
        return false, [], 0;
      }
      evicted, steps, first := EvictLoop(incoming);
    }

    /** The loop of evict_if_needed. */
    method EvictLoop(incoming: nat) returns (evicted: bool, ghost steps: seq<Eviction<D>>, ghost first: nat)
      requires Valid() && 0 < config.Budget() && incoming <= config.Budget()
      modifies this`entries, this`index, this`totalBytes, this`tokFiles, this`kvFiles, this`suspect
      ensures Valid() && suspect <= old(suspect) && totalBytes <= old(totalBytes)
      ensures EvictionRun(config, old(entries), steps, entries, incoming)
      ensures totalBytes + incoming <= config.Budget()
      ensures evicted <==> steps != []
      ensures !old(config.Below(totalBytes + incoming, config.watermark)) ==>
        (evicted <==> HasVictim(config, old(entries), old(totalBytes) + incoming, first))
      ensures !evicted ==> unchanged(this)
    {
      evicted, steps, first := false, [], 0;
      ghost var sought := HasVictim(config, entries, totalBytes + incoming, first);
      var more := true;
      while more && !config.Below(totalBytes + incoming, config.watermark) && entries != []
        invariant Valid() && suspect <= old(suspect) && totalBytes <= old(totalBytes)
        invariant EvictionRun(config, old(entries), steps, entries, incoming)
        invariant !more ==> config.Below(totalBytes + incoming, CRITICAL)
        invariant evicted <==> steps != []
        invariant !evicted ==> unchanged(this)
        invariant sought == HasVictim(config, old(entries), old(totalBytes) + incoming, first)
        invariant (evicted ==> sought) && (!evicted && !more ==> !sought)
        decreases more, |entries|
      {
        ghost var step, now;
        step, more, now := EvictOnce(incoming);
        if !evicted {
          first, sought := now, more;
        }
        if more {
          EvictionRunExtends(config, old(entries), steps, incoming, step.value);
          evicted, steps := true, steps + [step.value];
        }
      }
      MarkIsBelow(totalBytes + incoming, config.watermark);
      MarkIsBelow(totalBytes + incoming, CRITICAL);
    }

    /** An eviction seen as a set: one key goes, everything else keeps its files. */
    method Discard(i: nat)
      requires Valid() && i < |entries|
      modifies this`entries, this`index, this`totalBytes, this`tokFiles, this`kvFiles, this`suspect
      ensures Valid() && suspect <= old(suspect) && totalBytes <= old(totalBytes)
      ensures forall e :: e in entries <==> e in old(entries) && e.key != old(entries[i].key)
      ensures forall e :: e in entries ==>
        SameFile(tokFiles, old(tokFiles), e.key) && SameFile(kvFiles, old(kvFiles), e.key)
    {
      RemoveOne(entries, index, i);
      ghost var key, toks, kvs := entries[i].key, tokFiles, kvFiles;
      EvictAt(i);
      OthersKeepFiles(tokFiles, toks, key);
      OthersKeepFiles(kvFiles, kvs, key);
    }

    lemma MarkIsBelow(bytes: nat, mark: real)
      requires mark <= 1.0
      ensures config.Below(bytes, mark) ==> bytes <= config.Budget()
    {
      assert config.Budget() as real * mark <= config.Budget() as real;
    }

    /**
     One length of the lookup loop. A result comes from a live entry filed under exactly these
     tokens; without one, only stale entries were filed there, and they are gone.
     */
    method TryLength(ctx: Context, tokens: seq<Token>, n: nat, key: Key<D>, now: nat) returns (r: Option<Lookup<D>>)
      requires Valid() && n <= |tokens| && key == KeyOf(hash, ctx, tokens[..n])
      modifies this`entries, this`index, this`totalBytes, this`tokFiles, this`kvFiles, this`suspect
      ensures Valid() && suspect <= old(suspect) && totalBytes <= old(totalBytes)
      ensures r.Some? ==> entries == old(entries) && tokFiles == old(tokFiles) && kvFiles == old(kvFiles)
      ensures r.Some? ==> Decided(ctx, tokens, n, now, r.value)
      ensures r.None? ==> forall e :: e in old(entries) && Filed(hash, ctx, tokens, n, e) ==> Stale(config, ctx, e, now)
      ensures r.None? ==> forall e :: e in entries <==> e in old(entries) && !Filed(hash, ctx, tokens, n, e)
      ensures forall e :: e in entries ==>
        SameFile(tokFiles, old(tokFiles), e.key) && SameFile(kvFiles, old(kvFiles), e.key)
    {
      FiledOnce(hash, entries, index, ctx, tokens, n);
      if key !in index { return None; }
      var i := index[key];
      var entry := entries[i];
      if entry.prefixLen != n { return None; }
      if config.modelVersionCheck && entry.modelHash != 0 && entry.modelHash != ctx.modelHash {
        Discard(i);
        return None;
      }
      if Expired(entry, now) {
        Discard(i);
        return None;
      }
      r := Some(Verdict(tokFiles, entry, tokens[..n]));
    }

    /** The entry is live, and its token file decides the result. */
    ghost predicate Decides(e: Entry<D>, ctx: Context, prefix: seq<Token>, now: nat, r: Lookup<D>)
      reads this
    {
      !Stale(config, ctx, e, now) && r == Verdict(tokFiles, e, prefix)
    }

    /** The result is what the token file of a live entry filed under the first n tokens decides. */
    ghost predicate Decided(ctx: Context, tokens: seq<Token>, n: nat, now: nat, r: Lookup<D>)
      reads this
      requires n <= |tokens|
    {
      exists e :: e in entries && Filed(hash, ctx, tokens, n, e) && Decides(e, ctx, tokens[..n], now, r)
    }

    /** What a lookup at this time answers, the store being as it is. */
    ghost function Answer(ctx: Context, tokens: seq<Token>, now: nat): Lookup<D>
      reads this
    {
      if !config.enabled then LoadFailed
      else if |tokens| < config.minTokens then ShortPrefix
      else if entries == [] then FirstRun
      else Scan(config, hash, entries, index, tokFiles, ctx, tokens, now, |tokens|)
    }

    /**
     find_longest_prefix. What it removes on the way does not change the answer. `stop` is the
     length at which the scan ended: every entry filed under a longer prefix was stale and is gone,
     and nothing else is. A miss by hash mismatch is a scan that passed every length.
     */
    method FindLongestPrefix(ctx: Context, tokens: seq<Token>, now: nat) returns (r: Lookup<D>, ghost stop: int)
      requires Valid()
      modifies this`entries, this`index, this`totalBytes, this`tokFiles, this`kvFiles, this`suspect
      ensures Valid() && suspect <= old(suspect) && totalBytes <= old(totalBytes)
      ensures r == old(Answer(ctx, tokens, now))
      ensures forall e :: e in entries ==> e in old(entries)
      ensures r.Hit? ==> Scans(tokens) && config.minTokens <= stop <= |tokens| && Decided(ctx, tokens, stop, now, r)
      ensures !config.enabled ==> r.LoadFailed? && entries == old(entries)
      ensures config.enabled && |tokens| < config.minTokens ==> r.ShortPrefix? && entries == old(entries)
      ensures config.enabled && |tokens| >= config.minTokens && old(entries) == [] ==>
        r.FirstRun? && entries == old(entries)
      ensures Scans(tokens) && old(entries) != [] ==> config.minTokens - 1 <= stop <= |tokens|
      ensures Scans(tokens) && old(entries) != [] && stop < config.minTokens ==> r.HashMismatch?
      ensures Scans(tokens) && old(entries) != [] && stop >= config.minTokens ==> Decided(ctx, tokens, stop, now, r)
      ensures Scans(tokens) && old(entries) != [] ==>
        forall e :: e in old(entries) && Passed(hash, ctx, tokens, stop, e) ==> Stale(config, ctx, e, now)
      ensures Scans(tokens) && old(entries) != [] ==>
        forall e :: e in entries <==> e in old(entries) && !Passed(hash, ctx, tokens, stop, e)
      ensures forall e :: e in entries ==>
        SameFile(tokFiles, old(tokFiles), e.key) && SameFile(kvFiles, old(kvFiles), e.key)
    {
      stop := |tokens|;
      if !config.enabled { return LoadFailed, stop; }
      if |tokens| < config.minTokens { return ShortPrefix, stop; }
      if entries == [] { return FirstRun, stop; }
      r, stop := ScanLengths(ctx, tokens, now);
    }

    /** The loop of find_longest_prefix, over ever shorter prefixes. */
    method ScanLengths(ctx: Context, tokens: seq<Token>, now: nat) returns (r: Lookup<D>, ghost stop: int)
      requires Valid() && Scans(tokens)
      modifies this`entries, this`index, this`totalBytes, this`tokFiles, this`kvFiles, this`suspect
      ensures Valid() && suspect <= old(suspect) && totalBytes <= old(totalBytes)
      ensures r == Scan(config, hash, old(entries), old(index), old(tokFiles), ctx, tokens, now, |tokens|)
      ensures config.minTokens - 1 <= stop <= |tokens|
      ensures if stop < config.minTokens then r.HashMismatch? else Decided(ctx, tokens, stop, now, r)
      ensures forall e :: e in old(entries) && Passed(hash, ctx, tokens, stop, e) ==> Stale(config, ctx, e, now)
      ensures forall e :: e in entries <==> e in old(entries) && !Passed(hash, ctx, tokens, stop, e)
      ensures forall e :: e in entries ==>
        SameFile(tokFiles, old(tokFiles), e.key) && SameFile(kvFiles, old(kvFiles), e.key)
    {
      var prefixHashes := PrefixHashes(hash.mix, hash.ofToken, hash.offset, tokens);
      ghost var was := (entries, index, tokFiles);
      ghost var answer := Scan(config, hash, was.0, was.1, was.2, ctx, tokens, now, |tokens|);
      var len := |tokens|;
      stop := len;
      while len >= config.minTokens
        invariant config.minTokens - 1 <= len <= |tokens| && stop == len
        invariant Valid() && suspect <= old(suspect) && totalBytes <= old(totalBytes)
        invariant forall e :: e in old(entries) && Passed(hash, ctx, tokens, len, e) ==> Stale(config, ctx, e, now)
        invariant forall e :: e in entries <==> e in old(entries) && !Passed(hash, ctx, tokens, len, e)
        invariant forall e :: e in entries ==>
          SameFile(tokFiles, old(tokFiles), e.key) && SameFile(kvFiles, old(kvFiles), e.key)
        invariant answer == Scan(config, hash, was.0, was.1, was.2, ctx, tokens, now, len)
      {
        var found := TryLength(ctx, tokens, len, Key(ctx, prefixHashes[len - 1]), now);
        if found.Some? {
          AnswersAsBefore(ctx, tokens, len, now, found.value, was.0, was.1, was.2);
          return found.value, stop;
        }
        ScanSkips(config, hash, was.0, was.1, was.2, ctx, tokens, now, len);
        len := len - 1;
        stop := len;
      }
      r := HashMismatch;
    }

    /** A verdict reached after stale entries went is the verdict of the store before. */
    lemma AnswersAsBefore(ctx: Context, tokens: seq<Token>, n: nat, now: nat, r: Lookup<D>, es: seq<Entry<D>>,
                          was: map<Key<D>, nat>, toks: map<Key<D>, seq<Token>>)
      requires 0 < n <= |tokens| && config.minTokens <= n && Decided(ctx, tokens, n, now, r)
      requires Indexed(es, was) && forall e :: e in entries ==> e in es && SameFile(tokFiles, toks, e.key)
      ensures r == Scan(config, hash, es, was, toks, ctx, tokens, now, n)
    {
      var e :| e in entries && Filed(hash, ctx, tokens, n, e) && Decides(e, ctx, tokens[..n], now, r);
      ScanFinds(config, hash, es, was, toks, ctx, tokens, now, n, e);
    }

    /** The lookup gets as far as scanning prefixes, given a non-empty store. */
    predicate Scans(tokens: seq<Token>) {
      config.enabled && |tokens| >= config.minTokens
    }

    /**
     What a hit says: the tokens are literally a prefix of the query and live. They are backed by
     the KV file, which loads and was offered for exactly them, if and only if the key is not suspect.
     */
    lemma HitIsSound(ctx: Context, tokens: seq<Token>, n: nat, now: nat, r: Lookup<D>)
      requires Valid() && n <= |tokens| && Decided(ctx, tokens, n, now, r) && r.Hit?
      ensures r.tokens == tokens[..n] && r.entry in entries && r.entry.prefixLen == n
      ensures r.entry.key == KeyOf(hash, ctx, tokens[..n]) && (r.entry.expiresAt == 0 || now <= r.entry.expiresAt)
      ensures r.entry.key !in suspect <==> Backed(hash, r.entry, tokens[..n], kvFiles, offers)
      ensures r.entry.key !in suspect ==>
        && r.entry.key in kvFiles && Accepts(hash, r.entry, kvFiles[r.entry.key])
        && Offer(r.entry.key, tokens[..n], kvFiles[r.entry.key]) in offers
    {
      var e :| e in entries && Filed(hash, ctx, tokens, n, e) && Decides(e, ctx, tokens[..n], now, r);
      var i :| 0 <= i < |entries| && entries[i] == e;
      assert entries[i].key in suspect <==> !Trusted(hash, entries[i], tokFiles, kvFiles, offers);
      assert Answers(hash, e, tokens[..n]);
    }

    /** Why a live entry of the longest prefix is no hit: its token file cannot be read, or names other tokens. */
    lemma MissIsExplained(ctx: Context, tokens: seq<Token>, n: nat, now: nat, r: Lookup<D>)
      requires n <= |tokens| && Decided(ctx, tokens, n, now, r)
      ensures
        var key := KeyOf(hash, ctx, tokens[..n]);
        && (r.LoadFailed? <==> key !in tokFiles)
        && (r.TokenMismatch? <==> key in tokFiles && tokFiles[key] != tokens[..n])
        && (r.Hit? <==> key in tokFiles && tokFiles[key] == tokens[..n])
    {
    }

    /** load_kv: the bytes of the KV file if it can be read and its checksum agrees. */
    method LoadKv(entry: Entry<D>) returns (out: Option<seq<Byte>>)
      ensures out.Some? <==> entry.key in kvFiles && Accepts(hash, entry, kvFiles[entry.key])
      ensures out.Some? ==> out.value == kvFiles[entry.key]
    {
      if entry.key !in kvFiles || kvFiles[entry.key] == [] { return None; }
      var bytes := kvFiles[entry.key];
      if entry.checksum != hash.zero {
        var checksum := RunningHash(hash.mix, hash.ofByte, hash.offset, bytes);
        if checksum != entry.checksum { return None; }
      }
      out := Some(bytes);
    }

    /** evict_expired_entries keeps exactly the entries that are neither expired nor too old, in order. */
    method EvictExpired(now: nat)
      requires Valid()
      modifies this`entries, this`index, this`totalBytes, this`tokFiles, this`kvFiles, this`suspect
      ensures Valid() && suspect <= old(suspect)
      ensures entries == if config.enabled && now != 0 then Unexpired(config, now, old(entries)) else old(entries)
    {
      if !config.enabled || now == 0 { return; }
      ghost var before, seen, kept := entries, 0, [];
      var i := 0;
      while i < |entries|
        invariant Valid() && suspect <= old(suspect)
        invariant Swept(config, now, before, seen, kept, entries) && i == |kept|
        decreases |before| - seen
      {
        SweptNext(config, now, before, seen, kept, entries);
        if Expired(entries[i], now) || TooOld(config, entries[i], now) {
          EvictAt(i);
        } else {
          i := i + 1;
          kept := kept + [before[seen]];
        }
        seen := seen + 1;
      }
      assert before[..seen] == before;
    }

    /** Overwrites the bookkeeping of an entry. */
    method Touch(i: nat, e: Entry<D>)
      requires Valid() && i < |entries| && e.key == entries[i].key && e.prefixLen == entries[i].prefixLen
      requires e.checksum == entries[i].checksum && e.kvSize == entries[i].kvSize && e.sizeBytes == entries[i].sizeBytes
      modifies this`entries
      ensures Valid() && entries == old(entries)[i := e]
    {
      assert Trusted(hash, entries[i], tokFiles, kvFiles, offers) <==> Trusted(hash, e, tokFiles, kvFiles, offers);
      UpdateKeeps(hash, entries, index, tokFiles, kvFiles, offers, suspect, i, e);
      entries := entries[i := e];
    }

    /**
     note_hit: the entry, if it is still stored, gets a new lease and new averages, and goes when
     its ROI has been low for too many hits. Five declines in a row end all admissions.
     */
    method NoteHit(entry: Entry<D>, restoreMs: nat, savedMs: nat, now: nat)
      requires Valid()
      modifies this`entries, this`index, this`totalBytes, this`tokFiles, this`kvFiles, this`suspect,
               this`roiDeclineStreak, this`admissionsDisabled
      ensures Valid() && suspect <= old(suspect)
      ensures entry.key !in old(index) ==> entries == old(entries) && admissionsDisabled == old(admissionsDisabled)
      ensures entry.key in old(index) ==>
        roiDeclineStreak == Streak(old(roiDeclineStreak), old(entries[index[entry.key]]), restoreMs, savedMs)
      ensures entry.key in old(index) ==>
        admissionsDisabled == (old(admissionsDisabled) || roiDeclineStreak >= DECLINE_STOP)
      ensures entry.key in old(index) ==>
        var i := old(index)[entry.key];
        var e := Noted(config, old(entries)[i], restoreMs, savedMs, now, roiDeclineStreak);
        entries ==
          if DropsLowRoi(config) && e.lowRoiHits >= config.lowRoiHitLimit then RemoveAt(old(entries), i)
          else old(entries)[i := e]
    {
      if entry.key !in index { return; }
      var i := index[entry.key];
      roiDeclineStreak := Streak(roiDeclineStreak, entries[i], restoreMs, savedMs);
      if roiDeclineStreak >= DECLINE_STOP {
        admissionsDisabled := true;
      }
      var e := Noted(config, entries[i], restoreMs, savedMs, now, roiDeclineStreak);
      ghost var before := entries;
      Touch(i, e);
      if DropsLowRoi(config) && e.lowRoiHits >= config.lowRoiHitLimit {
        assert RemoveAt(before[i := e], i) == RemoveAt(before, i);
        EvictAt(i);
      }
    }

    /** The deterministic admission rules: a first store needs open admissions, a later one enough ROI. */
    predicate Admissible(key: Key<D>, numTokens: nat, size: nat)
      reads this
      requires Indexed(entries, index)
    {
      && config.enabled && numTokens >= config.minTokens && 0 < size
      && (config.Budget() > 0 ==> size <= config.Budget())
      && (key !in index ==> !admissionsDisabled)
      && (key in index && config.minAdmitRoi > 0.0 ==>
            var e := entries[index[key]];
            if e.emaRoi.Some? then e.emaRoi.value >= config.minAdmitRoi else e.restoreCount == e.seenCount == 0)
    }

    /** The checks before anything is written, the disk guard among them. */
    method Admit(key: Key<D>, numTokens: nat, size: nat, diskOk: bool) returns (ok: bool)
      requires Valid()
      ensures ok <==> diskOk && Admissible(key, numTokens, size)
    {
      if !config.enabled || numTokens < config.minTokens || size == 0 { return false; }
      if config.Budget() > 0 && size > config.Budget() { return false; }
      if !diskOk { return false; }
      if admissionsDisabled && key !in index { return false; }
      if config.minAdmitRoi > 0.0 && key in index {
        var e := entries[index[key]];
        var bootstrap := e.restoreCount == 0 && e.seenCount == 0 && e.emaRoi.None?;
        if !bootstrap {
          if e.emaRoi.None? || e.emaRoi.value < config.minAdmitRoi { return false; }
        }
      }
      ok := true;
    }

    /** With these tokens and KV files, a lookup would take an existing entry of this key for what it is not. */
    ghost predicate Misleads(key: Key<D>, tokens: seq<Token>, kvs: map<Key<D>, seq<Byte>>)
      reads this
    {
      && key in index && index[key] < |entries|
      && Answers(hash, entries[index[key]], tokens) && !Backed(hash, entries[index[key]], tokens, kvs, offers)
    }

    /** The marks that a write of a prompt's files leaves, given what goes wrong. */
    ghost function MarksAfter(key: Key<D>, tokens: seq<Token>, kv: seq<Byte>, fault: Fault): set<Key<D>>
      reads this
    {
      match fault
      case NoFault => suspect - {key}
      case TornTokens(n) =>
        if n >= |tokens| then suspect
        else if n > 0 && Misleads(key, tokens[..n], kvFiles) then suspect + {key} else suspect - {key}
      case TornKv(m, removed) =>
        if !removed && Misleads(key, tokens, Cut(kvFiles, key, kv, m)) then suspect + {key} else suspect - {key}
      case Dangling => suspect
    }

    /** A failed token write leaves n whole tokens, none that can be read (n = 0), or the file untouched. */
    method TearTokens(key: Key<D>, tokens: seq<Token>, n: nat)
      requires Valid()
      modifies this`tokFiles, this`suspect
      ensures Valid() && suspect == old(MarksAfter(key, tokens, [], TornTokens(n)))
      ensures tokFiles ==
        if n >= |tokens| then old(tokFiles)
        else if n == 0 then old(tokFiles) - {key}
        else old(tokFiles)[key := tokens[..n]]
    {
      if n >= |tokens| { return; }
      var toks := if n == 0 then tokFiles - {key} else tokFiles[key := tokens[..n]];
      RemarkKeeps(hash, entries, index, tokFiles, toks, kvFiles, kvFiles, offers, offers, suspect, key);
      suspect := Remarked(hash, entries, index, toks, kvFiles, offers, suspect, key);
      tokFiles := toks;
    }

    /** A failed KV write: the KV file may hold anything shorter, and the token file is removed if it can be. */
    method TearKv(key: Key<D>, tokens: seq<Token>, kv: seq<Byte>, m: nat, removed: bool)
      requires Valid()
      modifies this`tokFiles, this`kvFiles, this`suspect
      ensures Valid() && suspect == old(MarksAfter(key, tokens, kv, TornKv(m, removed)))
      ensures tokFiles == if removed then old(tokFiles) - {key} else old(tokFiles)[key := tokens]
      ensures kvFiles == Cut(old(kvFiles), key, kv, m)
    {
      var toks := if removed then tokFiles - {key} else tokFiles[key := tokens];
      var kvs := Cut(kvFiles, key, kv, m);
      RemarkKeeps(hash, entries, index, tokFiles, toks, kvFiles, kvs, offers, offers, suspect, key);
      suspect := Remarked(hash, entries, index, toks, kvs, offers, suspect, key);
      tokFiles, kvFiles := toks, kvs;
    }

    /** A write to disk, which may fail. */
    method Attempt() returns (ok: bool)
      modifies this`ioFaults
      ensures ioFaults == if ok then old(ioFaults) else old(ioFaults) + 1
    {
      ok := *;
      if !ok { ioFaults := ioFaults + 1; }
    }

    /** Writes the token file, then the KV file. Either write may fail and leave its file torn. */
    method WriteFiles(key: Key<D>, tokens: seq<Token>, kv: seq<Byte>) returns (ok: bool, ghost fault: Fault)
      requires Valid()
      modifies this`tokFiles, this`kvFiles, this`suspect, this`ioFaults
      ensures (ok <==> fault.NoFault?) && !fault.Dangling? && (ok <==> ioFaults == old(ioFaults))
      ensures suspect == old(MarksAfter(key, tokens, kv, fault))
      ensures !ok ==> Valid()
      ensures ok ==> tokFiles == old(tokFiles)[key := tokens] && kvFiles == old(kvFiles)[key := kv]
      ensures ok ==> OthersMarked(hash, entries, tokFiles, kvFiles, offers, suspect, key)
    {
      var removed: bool, torn: nat := *, *;
      var wroteTokens := Attempt();
      if !wroteTokens {
        TearTokens(key, tokens, torn);
        return false, TornTokens(torn);
      }
      var wroteKv := Attempt();
      if !wroteKv {
        TearKv(key, tokens, kv, torn, removed);
        return false, TornKv(torn, removed);
      }
      RewriteMarked(hash, entries, tokFiles, kvFiles, offers, suspect, key, tokens, kv);
      tokFiles := tokFiles[key := tokens];
      kvFiles := kvFiles[key := kv];
      suspect := suspect - {key};
      return true, NoFault;
    }

    /** Adds an entry under a new key. */
    method Append(e: Entry<D>)
      requires Indexed(entries, index) && config.Valid() && Sized(entries) && totalBytes == SumBytes(entries)
      requires Marked(hash, entries, tokFiles, kvFiles, offers, suspect) && suspect <= index.Keys
      requires e.key !in index && e.sizeBytes == e.kvSize > 0 && Trusted(hash, e, tokFiles, kvFiles, offers)
      modifies this`entries, this`index, this`totalBytes
      ensures Valid() && entries == old(entries) + [e] && totalBytes == old(totalBytes) + e.kvSize
    {
      AppendListed(entries, index, e);
      AppendMarked(hash, entries, tokFiles, kvFiles, offers, suspect, e);
      index := index[e.key := |entries|];
      entries := entries + [e];
      totalBytes := totalBytes + e.kvSize;
    }

    /** Overwrites the entry of an existing key. */
    method Replace(i: nat, e: Entry<D>)
      requires Indexed(entries, index) && config.Valid() && Sized(entries) && totalBytes == SumBytes(entries)
      requires i < |entries| && e.key == entries[i].key && e.sizeBytes == e.kvSize > 0
      requires OthersMarked(hash, entries, tokFiles, kvFiles, offers, suspect, e.key) && suspect <= index.Keys
      requires e.key !in suspect && Trusted(hash, e, tokFiles, kvFiles, offers)
      modifies this`entries, this`totalBytes
      ensures Valid() && entries == old(entries)[i := e]
      ensures totalBytes == old(totalBytes) - old(entries[i].kvSize) + e.kvSize
    {
      UpdateKeeps(hash, entries, index, tokFiles, kvFiles, offers, suspect, i, e);
      totalBytes := totalBytes + e.kvSize - entries[i].kvSize;
      entries := entries[i := e];
    }

    /** Room is made for a new key, which stays new. */
    method MakeRoom(key: Key<D>, size: nat) returns (ghost steps: seq<Eviction<D>>)
      requires Valid() && key !in index
      modifies this`entries, this`index, this`totalBytes, this`tokFiles, this`kvFiles, this`suspect
      ensures Valid() && suspect <= old(suspect) && totalBytes <= old(totalBytes)
      ensures key !in index && EvictionRun(config, old(entries), steps, entries, size)
      ensures config.Budget() > 0 && size <= config.Budget() ==> totalBytes + size <= config.Budget()
    {
      ghost var before, was := entries, index;
      ghost var first;
      var evicted;
      evicted, steps, first := EvictIfNeeded(size);
      EvictionRunShrinks(config, before, steps, entries, size);
      StaysNew(before, was, entries, index, key);
    }

    /** A larger replacement asks for room for the difference. */
    method GrowInPlace(key: Key<D>, size: nat) returns (evicted: bool, ghost steps: seq<Eviction<D>>, ghost first: nat)
      requires Valid() && key in index
      modifies this`entries, this`index, this`totalBytes, this`tokFiles, this`kvFiles, this`suspect
      ensures Valid() && suspect <= old(suspect) && totalBytes <= old(totalBytes)
      ensures EvictionRun(config, old(entries), steps, entries, Growth(old(entries), old(index), key, size))
      ensures evicted <==> steps != []
      ensures evicted <==> Crowds(config, old(entries), old(index), old(totalBytes), key, size, first)
      ensures !evicted ==> unchanged(this)
      ensures config.Budget() > 0 && size <= config.Budget() && Growth(old(entries), old(index), key, size) > 0 ==>
        totalBytes + Growth(old(entries), old(index), key, size) <= config.Budget()
    {
      evicted, steps, first := false, [], 0;
      var room := Growth(entries, index, key, size);
      if size > entries[index[key]].kvSize {
        evicted, steps, first := EvictIfNeeded(room);
      } else {
        NoEvictions(config, entries, room);
      }
    }

    /** These tokens and bytes are what the store holds under their key. */
    ghost predicate Stored(ctx: Context, tokens: seq<Token>, kv: seq<Byte>)
      reads this
    {
      var key := KeyOf(hash, ctx, tokens);
      && key in index && index[key] < |entries| && entries[index[key]].checksum == hash.Bytes(kv)
      && entries[index[key]].kvSize == |kv| && entries[index[key]].prefixLen == |tokens| % 0x1_0000_0000
      && key in tokFiles && tokFiles[key] == tokens && key in kvFiles && kvFiles[key] == kv && key !in suspect
    }

    /** Records in the index and the entry vector what was written to the files. */
    method Commit(ctx: Context, tokens: seq<Token>, kv: seq<Byte>, savedMs: nat, now: nat)
      requires Indexed(entries, index) && config.Valid() && Sized(entries) && totalBytes == SumBytes(entries)
      requires kv != []
      requires var key := KeyOf(hash, ctx, tokens);
        && key in tokFiles && tokFiles[key] == tokens && key in kvFiles && kvFiles[key] == kv
        && Offer(key, tokens, kv) in offers
        && key !in suspect && suspect <= index.Keys
        && OthersMarked(hash, entries, tokFiles, kvFiles, offers, suspect, key)
      modifies this`entries, this`index, this`totalBytes
      ensures Valid()
      ensures entries == Placed(config, hash, old(entries), old(index), ctx, tokens, kv, savedMs, now)
      ensures Stored(ctx, tokens, kv)
      ensures totalBytes == old(totalBytes) + |kv| - SizeIn(old(entries), old(index), KeyOf(hash, ctx, tokens))
    {
      var key := KeyOf(hash, ctx, tokens);
      if key in index {
        Replace(index[key], Renewed(config, hash, entries[index[key]], ctx, tokens, kv, savedMs, now));
      } else {
        Append(NewEntry(config, hash, ctx, tokens, kv, savedMs, now));
      }
    }

    /** The prompt is offered: a ghost step that can only clear a mark. */
    ghost method NoteOffer(o: Offer<D>)
      requires Valid()
      modifies this`offers, this`suspect
      ensures Valid() && offers == old(offers) + {o} && suspect <= old(suspect)
    {
      RemarkKeeps(hash, entries, index, tokFiles, tokFiles, kvFiles, kvFiles, offers, offers + {o}, suspect, o.key);
      suspect := Remarked(hash, entries, index, tokFiles, kvFiles, offers + {o}, suspect, o.key);
      offers := offers + {o};
    }

    /** The bytes in use respect the budget. */
    ghost predicate WithinBudget()
      reads this
    {
      config.Budget() > 0 ==> totalBytes <= config.Budget()
    }

    /** Files first, then the entry: a failed write changes neither the entries nor the accounting. */
    method WriteThrough(ctx: Context, tokens: seq<Token>, kv: seq<Byte>, savedMs: nat, now: nat)
      returns (ok: bool, ghost fault: Fault)
      requires Valid() && kv != [] && Offer(KeyOf(hash, ctx, tokens), tokens, kv) in offers
      modifies this`entries, this`index, this`totalBytes, this`tokFiles, this`kvFiles, this`suspect,
               this`ioFaults
      ensures Valid() && (ok <==> fault.NoFault?) && !fault.Dangling? && (ok <==> ioFaults == old(ioFaults))
      ensures ok ==> entries == Placed(config, hash, old(entries), old(index), ctx, tokens, kv, savedMs, now)
      ensures ok ==> Stored(ctx, tokens, kv)
      ensures ok ==> totalBytes == old(totalBytes) + |kv| - SizeIn(old(entries), old(index), KeyOf(hash, ctx, tokens))
      ensures !ok ==> entries == old(entries) && index == old(index) && totalBytes == old(totalBytes)
      ensures suspect == old(MarksAfter(KeyOf(hash, ctx, tokens), tokens, kv, fault))
    {
      ok, fault := WriteFiles(KeyOf(hash, ctx, tokens), tokens, kv);
      if ok {
        Commit(ctx, tokens, kv, savedMs, now);
      }
    }

    /** A write marks no key unless its fault is one that can. */
    lemma HarmlessMarks(ctx: Context, tokens: seq<Token>, kv: seq<Byte>, fault: Fault)
      requires Valid() && !fault.Dangling?
      ensures Harmless(hash, entries, index, ctx, tokens, fault) ==>
        MarksAfter(KeyOf(hash, ctx, tokens), tokens, kv, fault) <= suspect
      ensures KeyOf(hash, ctx, tokens) !in index ==> Harmless(hash, entries, index, ctx, tokens, fault)
      ensures MarksAfter(KeyOf(hash, ctx, tokens), tokens, kv, fault) <= suspect + {KeyOf(hash, ctx, tokens)}
    {
      var key := KeyOf(hash, ctx, tokens);
      if fault.TornTokens? && 0 < fault.n < |tokens| && Misleads(key, tokens[..fault.n], kvFiles) {
        assert entries[index[key]].prefixLen == fault.n;
        assert SelfColliding(hash, entries, ctx, tokens);
      }
    }

    /** Storing under a key that has an entry. */
    method StoreExisting(ctx: Context, tokens: seq<Token>, kv: seq<Byte>, savedMs: nat, now: nat)
      returns (ok: bool, ghost steps: seq<Eviction<D>>, ghost rest: seq<Entry<D>>, ghost fault: Fault, ghost first: nat)
      requires Valid() && kv != [] && Offer(KeyOf(hash, ctx, tokens), tokens, kv) in offers
      requires KeyOf(hash, ctx, tokens) in index
      requires config.Budget() > 0 ==> |kv| <= config.Budget()
      modifies this`entries, this`index, this`totalBytes, this`tokFiles, this`kvFiles, this`suspect,
               this`ioFaults
      ensures EvictionRun(config, old(entries), steps, rest,
                          Growth(old(entries), old(index), KeyOf(hash, ctx, tokens), |kv|))
      ensures steps != [] <==>
        Crowds(config, old(entries), old(index), old(totalBytes), KeyOf(hash, ctx, tokens), |kv|, first)
      ensures fault.Dangling? <==> steps != [] && ioFaults == old(ioFaults)
      ensures !fault.Dangling? ==> Valid() && (ok <==> fault.NoFault?) && (ok <==> ioFaults == old(ioFaults))
      ensures !fault.Dangling? && ok ==> steps == []
      ensures !fault.Dangling? && ok ==> Stored(ctx, tokens, kv)
      ensures !fault.Dangling? ==>
        entries == if ok then Placed(config, hash, rest, old(index), ctx, tokens, kv, savedMs, now) else rest
      ensures !fault.Dangling? && old(WithinBudget()) ==> WithinBudget()
      ensures Harmless(hash, old(entries), old(index), ctx, tokens, fault) ==> suspect <= old(suspect)
      ensures !fault.Dangling? ==> suspect <= old(suspect) + {KeyOf(hash, ctx, tokens)}
    {
      var key := KeyOf(hash, ctx, tokens);
      var evicted;
      evicted, steps, first := GrowInPlace(key, |kv|);
      rest := entries;
      if evicted {
        EvictionRunShrinks(config, old(entries), steps, entries, Growth(old(entries), old(index), key, |kv|));
        forall f | Harmless(hash, old(entries), old(index), ctx, tokens, f) {
          HarmlessLess(hash, old(entries), old(index), entries, index, ctx, tokens, f);
        }
        ok, fault := WriteDangling(ctx, tokens, kv);
      } else {
        ok, fault := WriteMarked(ctx, tokens, kv, savedMs, now);
      }
    }

    /**
     The write of a replacement for which others went. That has rebuilt the index, so when both
     files are written, the position looked up before is gone, and nothing is known of what follows.
     */
    method WriteDangling(ctx: Context, tokens: seq<Token>, kv: seq<Byte>) returns (ok: bool, ghost fault: Fault)
      requires Valid()
      modifies this`entries, this`index, this`totalBytes, this`tokFiles, this`kvFiles, this`suspect,
               this`ioFaults
      ensures fault.Dangling? <==> ioFaults == old(ioFaults)
      ensures !fault.Dangling? ==>
        Valid() && !ok && !fault.NoFault? && entries == old(entries) && totalBytes == old(totalBytes)
      ensures Harmless(hash, old(entries), old(index), ctx, tokens, fault) ==> suspect <= old(suspect)
      ensures !fault.Dangling? ==> suspect <= old(suspect) + {KeyOf(hash, ctx, tokens)}
    {
      forall f: Fault | !f.Dangling? { HarmlessMarks(ctx, tokens, kv, f); }
      ok, fault := WriteFiles(KeyOf(hash, ctx, tokens), tokens, kv);
      if ok {
        fault := Dangling;
        ok := *;
      }
    }

    /** A write with its effect on the marks bounded. */
    method WriteMarked(ctx: Context, tokens: seq<Token>, kv: seq<Byte>, savedMs: nat, now: nat)
      returns (ok: bool, ghost fault: Fault)
      requires Valid() && kv != [] && Offer(KeyOf(hash, ctx, tokens), tokens, kv) in offers
      modifies this`entries, this`index, this`totalBytes, this`tokFiles, this`kvFiles, this`suspect,
               this`ioFaults
      ensures Valid() && (ok <==> fault.NoFault?) && !fault.Dangling? && (ok <==> ioFaults == old(ioFaults))
      ensures ok ==> entries == Placed(config, hash, old(entries), old(index), ctx, tokens, kv, savedMs, now)
      ensures ok ==> Stored(ctx, tokens, kv)
      ensures ok ==> totalBytes == old(totalBytes) + |kv| - SizeIn(old(entries), old(index), KeyOf(hash, ctx, tokens))
      ensures !ok ==> entries == old(entries) && index == old(index) && totalBytes == old(totalBytes)
      ensures Harmless(hash, old(entries), old(index), ctx, tokens, fault) ==> suspect <= old(suspect)
      ensures suspect <= old(suspect) + {KeyOf(hash, ctx, tokens)}
      ensures KeyOf(hash, ctx, tokens) !in old(index) ==> suspect <= old(suspect)
    {
      forall f: Fault | !f.Dangling? { HarmlessMarks(ctx, tokens, kv, f); }
      ok, fault := WriteThrough(ctx, tokens, kv, savedMs, now);
    }

    /** Storing under a new key: room is made first, so success ends within budget. */
    method StoreNew(ctx: Context, tokens: seq<Token>, kv: seq<Byte>, savedMs: nat, now: nat)
      returns (ok: bool, ghost steps: seq<Eviction<D>>, ghost rest: seq<Entry<D>>, ghost fault: Fault)
      requires Valid() && kv != [] && Offer(KeyOf(hash, ctx, tokens), tokens, kv) in offers
      requires KeyOf(hash, ctx, tokens) !in index
      requires config.Budget() > 0 ==> |kv| <= config.Budget()
      modifies this`entries, this`index, this`totalBytes, this`tokFiles, this`kvFiles, this`suspect,
               this`ioFaults
      ensures Valid() && (ok <==> fault.NoFault?) && !fault.Dangling? && (ok <==> ioFaults == old(ioFaults))
      ensures EvictionRun(config, old(entries), steps, rest,
                          Growth(old(entries), old(index), KeyOf(hash, ctx, tokens), |kv|))
      ensures ok ==> Stored(ctx, tokens, kv)
      ensures entries == if ok then Placed(config, hash, rest, old(index), ctx, tokens, kv, savedMs, now) else rest
      ensures WithinBudget() && suspect <= old(suspect)
    {
      steps := MakeRoom(KeyOf(hash, ctx, tokens), |kv|);
      rest := entries;
      ok, fault := WriteMarked(ctx, tokens, kv, savedMs, now);
    }

    /**
     store_entry. After the evictions `steps`, `rest` is left; the prompt's entry is then placed
     unless a check or a write failed. Success stores exactly these tokens and bytes, and a new
     key never leaves the store over budget. The write of the index file may still fail when all
     else is done. Only a replacement whose files were torn can mark a key, and only its own: by a
     torn token file of a prompt that collides with its own prefix, or by a torn KV file whose
     token file could not be removed.

     A replacement that evicts loses the position it looked up, and once its files are written its
     behaviour is undefined. That happens only when room for the larger bytes cannot be had
     otherwise, and then a defined success does not happen.
     */
    method StoreEntry(ctx: Context, tokens: seq<Token>, kv: seq<Byte>, savedMs: nat, now: nat, diskOk: bool)
      returns (ok: bool, ghost steps: seq<Eviction<D>>, ghost rest: seq<Entry<D>>, ghost fault: Fault, ghost first: nat)
      requires Valid()
      modifies this`entries, this`index, this`totalBytes, this`tokFiles, this`kvFiles, this`suspect,
               this`offers, this`ioFaults
      ensures offers == old(offers) + {Offer(KeyOf(hash, ctx, tokens), tokens, kv)}
      ensures fault.Dangling? ==>
        Crowds(config, old(entries), old(index), old(totalBytes), KeyOf(hash, ctx, tokens), |kv|, first)
      ensures !fault.Dangling? ==> Valid()
      ensures !fault.Dangling? ==>
        (ok <==> diskOk && old(Admissible(KeyOf(hash, ctx, tokens), |tokens|, |kv|)) && ioFaults == old(ioFaults))
      ensures !fault.Dangling? && ok ==> fault.NoFault?
      ensures diskOk && old(Admissible(KeyOf(hash, ctx, tokens), |tokens|, |kv|)) && fault.NoFault? ==>
        && Stored(ctx, tokens, kv)
        && !Crowds(config, old(entries), old(index), old(totalBytes), KeyOf(hash, ctx, tokens), |kv|, first)
      ensures !diskOk || !old(Admissible(KeyOf(hash, ctx, tokens), |tokens|, |kv|)) ==>
        !ok && entries == old(entries) && fault.NoFault?
      ensures EvictionRun(config, old(entries), steps, rest,
                          Growth(old(entries), old(index), KeyOf(hash, ctx, tokens), |kv|))
      ensures !fault.Dangling? ==>
        entries ==
          if diskOk && old(Admissible(KeyOf(hash, ctx, tokens), |tokens|, |kv|)) && fault.NoFault? then
            Placed(config, hash, rest, old(index), ctx, tokens, kv, savedMs, now)
          else rest
      ensures !fault.Dangling? && old(WithinBudget()) ==> WithinBudget()
      ensures !fault.Dangling? && ok && KeyOf(hash, ctx, tokens) !in old(index) ==> WithinBudget()
      ensures Harmless(hash, old(entries), old(index), ctx, tokens, fault) ==> suspect <= old(suspect)
      ensures !fault.Dangling? ==> suspect <= old(suspect) + {KeyOf(hash, ctx, tokens)}
    {
      var h := RunningHash(hash.mix, hash.ofToken, hash.offset, tokens);
      var key := Key(ctx, h);
      steps, rest, fault, first := [], entries, NoFault, 0;
      NoEvictions(config, entries, Growth(entries, index, key, |kv|));
      NoteOffer(Offer(key, tokens, kv));
      ok := Admit(key, |tokens|, |kv|, diskOk);
      if !ok { return; }
      ok, steps, rest, fault, first := StoreAdmitted(ctx, tokens, kv, savedMs, now);
    }

    /** What store_entry does after its checks. */
    method StoreAdmitted(ctx: Context, tokens: seq<Token>, kv: seq<Byte>, savedMs: nat, now: nat)
      returns (ok: bool, ghost steps: seq<Eviction<D>>, ghost rest: seq<Entry<D>>, ghost fault: Fault, ghost first: nat)
      requires Valid() && kv != [] && Offer(KeyOf(hash, ctx, tokens), tokens, kv) in offers
      requires config.Budget() > 0 ==> |kv| <= config.Budget()
      modifies this`entries, this`index, this`totalBytes, this`tokFiles, this`kvFiles, this`suspect,
               this`ioFaults
      ensures fault.Dangling? ==>
        Crowds(config, old(entries), old(index), old(totalBytes), KeyOf(hash, ctx, tokens), |kv|, first)
      ensures !fault.Dangling? ==> Valid()
      ensures !fault.Dangling? ==> (ok <==> ioFaults == old(ioFaults)) && (ok ==> fault.NoFault?)
      ensures fault.NoFault? ==>
        && Stored(ctx, tokens, kv)
        && !Crowds(config, old(entries), old(index), old(totalBytes), KeyOf(hash, ctx, tokens), |kv|, first)
      ensures EvictionRun(config, old(entries), steps, rest,
                          Growth(old(entries), old(index), KeyOf(hash, ctx, tokens), |kv|))
      ensures !fault.Dangling? ==>
        entries ==
          if fault.NoFault? then Placed(config, hash, rest, old(index), ctx, tokens, kv, savedMs, now) else rest
      ensures !fault.Dangling? && old(WithinBudget()) ==> WithinBudget()
      ensures !fault.Dangling? && KeyOf(hash, ctx, tokens) !in old(index) ==> WithinBudget()
      ensures Harmless(hash, old(entries), old(index), ctx, tokens, fault) ==> suspect <= old(suspect)
      ensures !fault.Dangling? ==> suspect <= old(suspect) + {KeyOf(hash, ctx, tokens)}
    {
      first := 0;
      if KeyOf(hash, ctx, tokens) in index {
        ok, steps, rest, fault, first := StoreExisting(ctx, tokens, kv, savedMs, now);
      } else {
        ok, steps, rest, fault := StoreNew(ctx, tokens, kv, savedMs, now);
      }
      if ok {
        ok := Attempt();
      }
    }
  }
}
