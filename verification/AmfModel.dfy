/**
 The values of the AMF store: keys, entries, eviction order, byte accounting, and what its files
 may be trusted for.
 */
module AmfModel {
  import opened Wrappers
  import opened Fnv
  import opened Llama

  /**
   How a store hashes tokens and bytes: a step folded over the widened values. The store's own
   properties hold for every hasher; FNV is the one it uses.
   */
  datatype Hasher<!D> = Hasher(mix: (D, D) -> D, offset: D, zero: D, ofByte: Byte -> D, ofToken: Token -> D)
  {
    function Tokens(tokens: seq<Token>): D {
      Fold(mix, ofToken, offset, tokens)
    }

    function Bytes(bytes: seq<Byte>): D {
      Fold(mix, ofByte, offset, bytes)
    }
  }

  /** A token, a 32-bit signed integer, is hashed as its bit pattern. */
  function PatternOf(t: Token): Hash {
    if t >= 0 then Unsigned(t) else Unsigned(t + 0x1_0000_0000)
  }

  function Unsigned(n: int): Hash {
    if 0 <= n < 0x1_0000_0000 then FromToken(n as Word) else 0
  }

  /** Every 32-bit pattern is that of a token. */
  lemma TokenOf(w: Word) returns (t: Token)
    ensures -0x8000_0000 <= t < 0x8000_0000 && PatternOf(t) == FromToken(w)
  {
    var n := w as int;
    UnsignedIs(w);
    t := if n < 0x8000_0000 then n else n - 0x1_0000_0000;
  }

  lemma UnsignedIs(w: Word)
    ensures Unsigned(w as int) == FromToken(w)
  {
    var n := w as int;
    assert 0 <= n < 0x1_0000_0000 && n as Word == w;
  }

  const FNV: Hasher<Hash> := Hasher(MIX, OFFSET, 0, FromByte, PatternOf)

  /** Everything besides the tokens that a KV state depends on. */
  datatype Context = Context(modelHash: nat, tenantHash: nat, nCtx: nat, kvVersion: nat, ropeBase: nat, ropeScale: nat,
                             samplingHash: nat, rngHash: nat)

  datatype Key<D> = Key(ctx: Context, prefixHash: D)

  datatype EntryState = StateCold | StateWarmPending | StateHot

  datatype Tier = Hot | Warm | Cold

  datatype Policy = Lru | Lfu | Roi

  /** One stored prefix; an exponential moving average is None until its first sample. */
  datatype Entry<D> = Entry(
    key: Key<D>, modelHash: nat, prefixLen: nat,
    seenCount: nat, restoreCount: nat,
    emaSaved: Option<real>, emaRestore: Option<real>, emaRoi: Option<real>,
    failureCount: nat, blockCount: nat, savedMs: nat, hitCount: nat,
    lastUsed: nat, lastHit: nat, lowRoiHits: nat,
    kvSize: nat, lastAccess: nat, accessCount: nat, storedAt: nat, expiresAt: nat,
    sizeBytes: nat, checksum: D, state: EntryState)

  const CRITICAL: real := 0.98

  /** The settings of a store; `effectiveTtl` is the TTL for an access count. */
  datatype Config = Config(
    enabled: bool, minTokens: nat, storageBudget: nat, maxBytes: nat, watermark: real,
    hotTtl: nat, warmTtl: nat, policy: Policy, defaultTtl: nat, effectiveTtl: nat -> nat,
    maxAge: nat, modelVersionCheck: bool, minAdmitRoi: real, lowRoiHitLimit: nat)
  {
    /** The ranges that are enforced when settings are read; without a default TTL nothing expires. */
    ghost predicate Valid() {
      && minTokens > 0 && 0.0 < watermark <= 1.0
      && forall n :: effectiveTtl(n) > 0 <==> defaultTtl > 0
    }

    function Budget(): nat {
      if storageBudget > 0 then storageBudget else maxBytes
    }

    /** The bytes do not exceed the given fraction of the budget. */
    predicate Below(bytes: nat, mark: real) {
      bytes as real <= Budget() as real * mark
    }
  }

  /** The key of a whole prompt: everything replay depends on, and the hash of its tokens. */
  function KeyOf<D>(h: Hasher<D>, ctx: Context, tokens: seq<Token>): Key<D> {
    Key(ctx, h.Tokens(tokens))
  }

  /** Last access, or last use for entries never accessed. */
  function Touched<D>(e: Entry<D>): nat {
    if e.lastAccess > 0 then e.lastAccess else e.lastUsed
  }

  function Classify<D>(c: Config, e: Entry<D>, now: nat): Tier {
    var last := Touched(e);
    if last == 0 || now == 0 then Cold
    else if now < last then Cold
    else if now - last <= c.hotTtl then Hot
    else if now - last <= c.warmTtl then Warm
    else Cold
  }

  function RoiScore<D>(e: Entry<D>): real {
    if e.emaRoi.Some? then e.emaRoi.value
    else if e.emaRestore.Some? && e.emaRestore.value > 0.0 && e.emaSaved.Some? then
      e.emaSaved.value / e.emaRestore.value
    else 0.0
  }

  /** `cand` is a better eviction victim than `cur`. */
  predicate Better<D>(policy: Policy, cand: Entry<D>, cur: Entry<D>) {
    match policy
    case Lru =>
      if Touched(cand) != Touched(cur) then Touched(cand) < Touched(cur)
      else cand.accessCount < cur.accessCount
    case Roi =>
      if RoiScore(cand) != RoiScore(cur) then RoiScore(cand) < RoiScore(cur)
      else if cand.accessCount != cur.accessCount then cand.accessCount < cur.accessCount
      else Touched(cand) < Touched(cur)
    case Lfu =>
      if cand.accessCount != cur.accessCount then cand.accessCount < cur.accessCount
      else Touched(cand) < Touched(cur)
  }

  function EntryBytes<D>(e: Entry<D>): nat {
    if e.sizeBytes > 0 then e.sizeBytes else e.kvSize
  }

  function SumBytes<D>(es: seq<Entry<D>>): nat {
    if es == [] then 0 else SumBytes(es[..|es| - 1]) + EntryBytes(es[|es| - 1])
  }

  function RemoveAt<T>(es: seq<T>, i: nat): (r: seq<T>)
    requires i < |es|
    ensures |r| == |es| - 1
    ensures forall j :: 0 <= j < |r| ==> r[j] == es[if j < i then j else j + 1]
  {
    es[..i] + es[i + 1..]
  }

  lemma {:induction false} SumRemove<D>(es: seq<Entry<D>>, i: nat)
    requires i < |es|
    ensures SumBytes(es) == SumBytes(RemoveAt(es, i)) + EntryBytes(es[i])
  {
    var n := |es| - 1;
    var r := RemoveAt(es, i);
    if i == n {
      assert r == es[..n];
    } else {
      SumRemove(es[..n], i);
      assert RemoveAt(es[..n], i) == r[..n - 1];
    }
  }

  lemma {:induction false} SumUpdate<D>(es: seq<Entry<D>>, i: nat, e: Entry<D>)
    requires i < |es|
    ensures SumBytes(es[i := e]) == SumBytes(es) - EntryBytes(es[i]) + EntryBytes(e)
  {
    var n := |es| - 1;
    if i == n {
      assert es[i := e][..n] == es[..n];
    } else {
      SumUpdate(es[..n], i, e);
      assert es[i := e][..n] == es[..n][i := e];
    }
  }

  /** The index is exactly the inverse of the entry vector, so no two entries share a key. */
  ghost predicate Indexed<D>(es: seq<Entry<D>>, index: map<Key<D>, nat>) {
    && (forall i :: 0 <= i < |es| ==> es[i].key in index && index[es[i].key] == i)
    && (forall k :: k in index ==> index[k] < |es| && es[index[k]].key == k)
  }

  ghost predicate DistinctKeys<D>(es: seq<Entry<D>>) {
    forall i, j :: 0 <= i < j < |es| ==> es[i].key != es[j].key
  }

  /** A triple that some call of store_entry was given. */
  datatype Offer<D> = Offer(key: Key<D>, tokens: seq<Token>, bytes: seq<Byte>)

  /** A token file that a lookup of this entry could accept. */
  predicate Answers<D(==)>(h: Hasher<D>, e: Entry<D>, tokens: seq<Token>) {
    |tokens| == e.prefixLen && KeyOf(h, e.key.ctx, tokens) == e.key
  }

  /** A lookup of some prompt would accept the entry's token file. */
  ghost predicate Named<D>(h: Hasher<D>, e: Entry<D>, toks: map<Key<D>, seq<Token>>) {
    e.key in toks && Answers(h, e, toks[e.key])
  }

  /** The KV file loads, and its bytes were offered for exactly these tokens. */
  ghost predicate Backed<D>(h: Hasher<D>, e: Entry<D>, tokens: seq<Token>, kvs: map<Key<D>, seq<Byte>>,
                            offers: set<Offer<D>>)
  {
    && e.key in kvs && kvs[e.key] != [] && e.checksum == h.Bytes(kvs[e.key])
    && Offer(e.key, tokens, kvs[e.key]) in offers
  }

  /** No lookup is misled by the entry: its token file is not accepted, or names what its KV file holds. */
  ghost predicate Trusted<D>(h: Hasher<D>, e: Entry<D>, toks: map<Key<D>, seq<Token>>, kvs: map<Key<D>, seq<Byte>>,
                             offers: set<Offer<D>>)
  {
    Named(h, e, toks) ==> Backed(h, e, toks[e.key], kvs, offers)
  }

  /** `suspect` marks exactly the entries that cannot be trusted. */
  ghost predicate Marked<D>(h: Hasher<D>, es: seq<Entry<D>>, toks: map<Key<D>, seq<Token>>, kvs: map<Key<D>, seq<Byte>>,
                            offers: set<Offer<D>>, suspect: set<Key<D>>)
  {
    forall i :: 0 <= i < |es| ==> (es[i].key in suspect <==> !Trusted(h, es[i], toks, kvs, offers))
  }

  /** Two file maps agree away from one key. */
  ghost predicate SameElsewhere<D, T>(files: map<Key<D>, T>, before: map<Key<D>, T>, k: Key<D>) {
    files - {k} == before - {k}
  }

  /** Two sets of offers agree away from one key. */
  ghost predicate SameOffers<D(!new)>(offers: set<Offer<D>>, before: set<Offer<D>>, k: Key<D>) {
    forall o: Offer<D> :: o.key != k ==> (o in offers <==> o in before)
  }

  /** Whatever becomes of the files and offers of one key, every other entry is trusted exactly as before. */
  lemma TrustedElsewhere<D(!new)>(h: Hasher<D>, e: Entry<D>, toks: map<Key<D>, seq<Token>>,
                                  toks': map<Key<D>, seq<Token>>, kvs: map<Key<D>, seq<Byte>>,
                                  kvs': map<Key<D>, seq<Byte>>, offers: set<Offer<D>>, offers': set<Offer<D>>,
                                  k: Key<D>)
    requires e.key != k && SameElsewhere(toks', toks, k) && SameElsewhere(kvs', kvs, k)
    requires SameOffers(offers', offers, k)
    ensures Trusted(h, e, toks', kvs', offers') <==> Trusted(h, e, toks, kvs, offers)
  {
    assert e.key in toks' ==> e.key in toks' - {k} && (toks' - {k})[e.key] == toks'[e.key];
    assert e.key in toks ==> e.key in toks - {k} && (toks - {k})[e.key] == toks[e.key];
    assert e.key in kvs' ==> e.key in kvs' - {k} && (kvs' - {k})[e.key] == kvs'[e.key];
    assert e.key in kvs ==> e.key in kvs - {k} && (kvs - {k})[e.key] == kvs[e.key];
  }

  /** The checks of load_kv on what it read. */
  predicate Accepts<D(==)>(h: Hasher<D>, e: Entry<D>, bytes: seq<Byte>) {
    bytes != [] && (e.checksum != h.zero ==> h.Bytes(bytes) == e.checksum)
  }

  /**
   With a non-zero checksum no one-byte corruption of a stored blob is loaded; with a zero
   checksum nothing is checked.
   */
  lemma OneByteCorruptionRejected(e: Entry<Hash>, bytes: seq<Byte>, i: nat, b: Byte)
    requires e.checksum == FNV.Bytes(bytes) && i < |bytes| && bytes[i] != b
    ensures Accepts(FNV, e, bytes)
    ensures Accepts(FNV, e, bytes[i := b]) <==> e.checksum == 0
  {
    OneByte(bytes, i, b);
  }

  /** An entry whose time is up. */
  predicate Expired<D>(e: Entry<D>, now: nat) {
    e.expiresAt > 0 && now > e.expiresAt
  }

  /** When an entry was last hit, or used if it never was. */
  function LastHit<D>(e: Entry<D>): nat {
    if e.lastHit > 0 then e.lastHit else e.lastUsed
  }

  predicate TooOld<D>(c: Config, e: Entry<D>, now: nat) {
    c.maxAge > 0 && LastHit(e) > 0 && now > LastHit(e) && now - LastHit(e) > c.maxAge
  }

  /** The entries whose time is not up, in order. */
  function Unexpired<D>(c: Config, now: nat, es: seq<Entry<D>>): (r: seq<Entry<D>>) {
    if es == [] then []
    else
      var r, last := Unexpired(c, now, es[..|es| - 1]), es[|es| - 1];
      if Expired(last, now) || TooOld(c, last, now) then r else r + [last]
  }

  lemma {:induction false} UnexpiredExactly<D(!new)>(c: Config, now: nat, es: seq<Entry<D>>)
    ensures forall e :: e in Unexpired(c, now, es) <==>
      && e in es && (e.expiresAt == 0 || now <= e.expiresAt)
      && (c.maxAge == 0 || LastHit(e) == 0 || now <= LastHit(e) + c.maxAge)
  {
    if es != [] {
      UnexpiredExactly(c, now, es[..|es| - 1]);
      assert es == es[..|es| - 1] + [es[|es| - 1]];
    }
  }

  /** An exponential moving average updated by one sample. */
  function UpdateEma(current: Option<real>, sample: real): Option<real> {
    if current.None? then Some(sample) else Some(current.value * 0.8 + sample * 0.2)
  }
}
