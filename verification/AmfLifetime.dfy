/** How long the AMF store answers for what was put into it: statements over several of its operations. */
module AmfLifetime {
  import opened Wrappers
  import opened Llama
  import opened AmfModel
  import opened AmfStorage

  /** The time an entry stored at `stored` under a new key is good for, or None when it is good forever. */
  function Deadline(c: Config, stored: nat): Option<nat> {
    if c.defaultTtl > 0 then Some(stored + c.effectiveTtl(0)) else None
  }

  /** A hit of the scan from n down is no longer than n. */
  lemma {:induction false} ScanShortens<D>(c: Config, h: Hasher<D>, es: seq<Entry<D>>, index: map<Key<D>, nat>,
                                           toks: map<Key<D>, seq<Token>>, ctx: Context, tokens: seq<Token>, now: nat,
                                           n: nat)
    requires n <= |tokens|
    ensures
      var r := Scan(c, h, es, index, toks, ctx, tokens, now, n);
      r.Hit? ==> |r.tokens| <= n
  {
    if n > 0 {
      ScanShortens(c, h, es, index, toks, ctx, tokens, now, n - 1);
    }
  }

  /** The entry under a prompt's key is for the whole prompt, and so is its token file. */
  ghost predicate HasWhole<D(!new)>(store: AmfStore<D>, ctx: Context, tokens: seq<Token>, e: Entry<D>)
    reads store
  {
    && store.Scans(tokens) && e in store.entries && Filed(store.hash, ctx, tokens, |tokens|, e)
    && e.key in store.tokFiles && store.tokFiles[e.key] == tokens
  }

  /** Such an entry is found, or removed when it is stale. */
  method FindWhole<D(==, !new)>(store: AmfStore<D>, ctx: Context, tokens: seq<Token>, now: nat, ghost e: Entry<D>)
    returns (r: Lookup<D>)
    requires store.Valid() && HasWhole(store, ctx, tokens, e)
    modifies store
    ensures if Stale(store.config, ctx, e, now) then (r.Hit? ==> |r.tokens| < |tokens|) && e.key !in store.index
            else r == Hit(e, tokens) && e.key in store.index
  {
    assert tokens[..|tokens|] == tokens;
    ghost var es, was, toks := store.entries, store.index, store.tokFiles;
    FiledOnce(store.hash, es, was, ctx, tokens, |tokens|);
    ghost var stop;
    r, stop := store.FindLongestPrefix(ctx, tokens, now);
    if Stale(store.config, ctx, e, now) {
      ScanSkips(store.config, store.hash, es, was, toks, ctx, tokens, now, |tokens|);
      ScanShortens(store.config, store.hash, es, was, toks, ctx, tokens, now, |tokens| - 1);
      assert stop < |tokens|;
    } else {
      ScanFinds(store.config, store.hash, es, was, toks, ctx, tokens, now, |tokens|, e);
    }
  }

  /** Under a new key the entry placed is a new one, for the whole prompt. */
  lemma PlacedFresh<D>(c: Config, h: Hasher<D>, es: seq<Entry<D>>, index: map<Key<D>, nat>, ctx: Context,
                       tokens: seq<Token>, kv: seq<Byte>, savedMs: nat, stored: nat)
    requires KeyOf(h, ctx, tokens) !in index && |tokens| < 0x1_0000_0000
    ensures
      var e := NewEntry(c, h, ctx, tokens, kv, savedMs, stored);
      e in Placed(c, h, es, index, ctx, tokens, kv, savedMs, stored) && Filed(h, ctx, tokens, |tokens|, e)
  {
    assert tokens[..|tokens|] == tokens;
    var e := NewEntry(c, h, ctx, tokens, kv, savedMs, stored);
    assert (es + [e])[|es|] == e;
  }

  /** A successful store under a new key. */
  method StoreFresh<D(==, !new)>(store: AmfStore<D>, ctx: Context, tokens: seq<Token>, kv: seq<Byte>, savedMs: nat,
                                 stored: nat)
    returns (ok: bool, ghost e: Entry<D>)
    requires store.Valid() && KeyOf(store.hash, ctx, tokens) !in store.index && |tokens| < 0x1_0000_0000
    modifies store
    ensures ok ==> store.Valid() && HasWhole(store, ctx, tokens, e) && e.key in store.index
    ensures ok ==> e == NewEntry(store.config, store.hash, ctx, tokens, kv, savedMs, stored)
  {
    e := NewEntry(store.config, store.hash, ctx, tokens, kv, savedMs, stored);
    var diskOk: bool := *;
    ghost var steps, rest, fault, first;
    ok, steps, rest, fault, first := store.StoreEntry(ctx, tokens, kv, savedMs, stored, diskOk);
    if ok {
      assert !fault.Dangling?;
      PlacedFresh(store.config, store.hash, rest, old(store.index), ctx, tokens, kv, savedMs, stored);
    }
  }

  /**
   A prompt stored under a new key is found again, whole, at every time up to its deadline. After
   that it is not, and the lookup that finds it so removes it; a shorter prefix may still be found.
   */
  method StoreThenFind<D(==, !new)>(store: AmfStore<D>, ctx: Context, tokens: seq<Token>, kv: seq<Byte>, savedMs: nat,
                                    stored: nat, now: nat)
    returns (ok: bool, r: Lookup<D>)
    requires store.Valid() && KeyOf(store.hash, ctx, tokens) !in store.index && |tokens| < 0x1_0000_0000
    modifies store
    ensures ok ==>
      var key, deadline := KeyOf(store.hash, ctx, tokens), Deadline(store.config, stored);
      if deadline.None? || now <= deadline.value then r.Hit? && r.tokens == tokens && key in store.index
      else (r.Hit? ==> |r.tokens| < |tokens|) && key !in store.index
  {
    ghost var e;
    ok, e := StoreFresh(store, ctx, tokens, kv, savedMs, stored);
    if !ok { return false, FirstRun; }
    r := FindWhole(store, ctx, tokens, now, e);
  }

  /** An entry that was there has gone exactly when its key has. */
  lemma GoneWithKey<D>(es: seq<Entry<D>>, index: map<Key<D>, nat>, es': seq<Entry<D>>, index': map<Key<D>, nat>,
                       e: Entry<D>)
    requires Indexed(es, index) && Indexed(es', index') && e in es && forall d :: d in es' ==> d in es
    ensures e.key in index' <==> e in es'
  {
    var i :| 0 <= i < |es| && es[i] == e;
    if e.key in index' {
      assert es'[index'[e.key]] in es';
    }
  }

  /** The sweep keeps an entry exactly while it is neither expired nor too old. */
  method Sweep<D(==, !new)>(store: AmfStore<D>, now: nat, ghost e: Entry<D>)
    requires store.Valid() && store.config.enabled && e in store.entries
    modifies store
    ensures store.Valid()
    ensures e.key in store.index <==>
      && (e.expiresAt == 0 || now <= e.expiresAt)
      && (store.config.maxAge == 0 || LastHit(e) == 0 || now <= LastHit(e) + store.config.maxAge)
  {
    ghost var es, was := store.entries, store.index;
    store.EvictExpired(now);
    UnexpiredExactly(store.config, now, es);
    GoneWithKey(es, was, store.entries, store.index, e);
  }

  /** A prompt stored under a new key survives the sweep exactly up to its deadline, and up to the age limit. */
  method StoreThenSweep<D(==, !new)>(store: AmfStore<D>, ctx: Context, tokens: seq<Token>, kv: seq<Byte>, savedMs: nat,
                                     stored: nat, now: nat)
    returns (ok: bool)
    requires store.Valid() && KeyOf(store.hash, ctx, tokens) !in store.index && |tokens| < 0x1_0000_0000
    modifies store
    ensures ok ==>
      var deadline := Deadline(store.config, stored);
      KeyOf(store.hash, ctx, tokens) in store.index <==>
        && (deadline.None? || now <= deadline.value)
        && (store.config.maxAge == 0 || stored == 0 || now <= stored + store.config.maxAge)
  {
    ghost var e;
    ok, e := StoreFresh(store, ctx, tokens, kv, savedMs, stored);
    if ok {
      Sweep(store, now, e);
    }
  }

  /** A hit that leaves the entry in the store renews its lease: it survives the sweep by the time of the hit. */
  method HitThenSweep<D(==, !new)>(store: AmfStore<D>, entry: Entry<D>, restoreMs: nat, savedMs: nat, hit: nat,
                                   now: nat)
    returns (kept: bool)
    requires store.Valid() && store.config.enabled && store.config.defaultTtl > 0 && entry.key in store.index
    modifies store
    ensures kept ==>
      var lease := store.config.effectiveTtl(old(store.entries[store.index[entry.key]]).accessCount + 1);
      entry.key in store.index <==>
        now <= hit + lease && (store.config.maxAge == 0 || hit == 0 || now <= hit + store.config.maxAge)
  {
    ghost var i := store.index[entry.key];
    store.NoteHit(entry, restoreMs, savedMs, hit);
    kept := entry.key in store.index;
    if kept {
      ghost var e := store.entries[store.index[entry.key]];
      Sweep(store, now, e);
    }
  }
}
