/** The LMCache adapter with its in-process fallback store (no native engine, CPU backend). */
module LmCache {
  import opened Wrappers
  import opened PoolModel

  class LMCacheAdapter<KV> {
    const enabled: bool
    var cpuStore: map<Hash, KV>
    var hits: nat
    var misses: nat
    var stores: nat

    constructor (enabled: bool)
      ensures this.enabled == enabled && cpuStore == map[] && hits == misses == stores == 0
    {
      this.enabled := enabled;
      cpuStore := map[];
      hits, misses, stores := 0, 0, 0;
    }

    /** Returns the cached tensor; a disabled adapter always misses. */
    method Lookup(h: Hash) returns (kv: Option<KV>)
      modifies this`hits, this`misses
      ensures kv == if enabled && h in cpuStore then Some(cpuStore[h]) else None
      ensures hits + misses == old(hits) + old(misses) + 1
      ensures kv.Some? <==> hits == old(hits) + 1
    {
      if !enabled {
        misses := misses + 1;
        return None;
      }
      if h !in cpuStore {
        misses := misses + 1;
        return None;
      }
      hits := hits + 1;
      kv := Some(cpuStore[h]);
    }

    method Store(h: Hash, kv: KV) returns (ok: bool)
      modifies this`cpuStore, this`stores
      ensures ok == enabled
      ensures cpuStore == if ok then old(cpuStore)[h := kv] else old(cpuStore)
      ensures stores == old(stores) + if ok then 1 else 0
    {
      if !enabled { return false; }
      cpuStore := cpuStore[h := kv];
      stores := stores + 1;
      ok := true;
    }

    method Evict(h: Hash) returns (removed: bool)
      modifies this`cpuStore
      ensures removed <==> enabled && h in old(cpuStore)
      ensures cpuStore == if enabled then old(cpuStore) - {h} else old(cpuStore)
    {
      if !enabled { return false; }
      removed := h in cpuStore;
      cpuStore := cpuStore - {h};
    }
  }
}
