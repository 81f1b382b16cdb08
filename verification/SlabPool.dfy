/**
 The compressed VRAM pool: per-layer byte slabs, free lists and an index of cached prefixes.

 Public calls are atomic. The codec is outside: `Put` receives the compressed blobs, one per
 layer. The dictionary's insertion order is kept in `order`, because eviction scans in it.
 */
module SlabPool {
  import opened Wrappers
  import opened SlabLayer
  import opened PoolModel
  import opened PoolEviction
  import opened Compaction

  /** The blobs of the first `layers` layers would each fit into an empty slab. */
  predicate Fits(blobs: seq<Blob>, layers: nat, n: nat, blockBytes: nat)
    requires blockBytes > 0
  {
    forall l :: 0 <= l < |blobs| && l < layers ==> BlobBlocks(blobs[l], blockBytes) <= n
  }

  /** They would each fit into the longest run of a slab that nothing lost interrupts. */
  ghost predicate FitsAround(blobs: seq<Blob>, missing: seq<map<Owner, Span>>, n: nat, blockBytes: nat)
    requires blockBytes > 0
  {
    forall l :: 0 <= l < |blobs| && l < |missing| ==> BlobBlocks(blobs[l], blockBytes) <= Capacity(missing[l], n)
  }

  /** One more blob fits; or one that does not fit settles it. */
  lemma FitsNext(blobs: seq<Blob>, k: nat, missing: seq<map<Owner, Span>>, n: nat, blockBytes: nat)
    requires blockBytes > 0 && k < |blobs| && k < |missing| && FitsAround(blobs[..k], missing, n, blockBytes)
    ensures BlobBlocks(blobs[k], blockBytes) <= Capacity(missing[k], n) <==>
      FitsAround(blobs[..k + 1], missing, n, blockBytes)
    ensures BlobBlocks(blobs[k], blockBytes) > Capacity(missing[k], n) ==> !FitsAround(blobs, missing, n, blockBytes)
  {
    forall l | 0 <= l < k ensures BlobBlocks(blobs[l], blockBytes) <= Capacity(missing[l], n) {
      assert blobs[..k][l] == blobs[l];
    }
    assert blobs[..k + 1][k] == blobs[k];
  }

  /** Blobs beyond the last layer do not matter. */
  lemma FitsFirst(blobs: seq<Blob>, k: nat, missing: seq<map<Owner, Span>>, n: nat, blockBytes: nat)
    requires blockBytes > 0 && k <= |blobs| && (k == |blobs| || k == |missing|)
    requires FitsAround(blobs[..k], missing, n, blockBytes)
    ensures FitsAround(blobs, missing, n, blockBytes)
  {
    forall l | 0 <= l < |blobs| && l < |missing| ensures BlobBlocks(blobs[l], blockBytes) <= Capacity(missing[l], n) {
      assert blobs[..k][l] == blobs[l];
    }
  }

  ghost predicate NothingLost(missing: seq<map<Owner, Span>>) {
    forall l :: 0 <= l < |missing| ==> missing[l] == map[]
  }

  /** With nothing lost the two conditions are one. */
  lemma FitsAroundNothing(blobs: seq<Blob>, missing: seq<map<Owner, Span>>, n: nat, blockBytes: nat)
    requires blockBytes > 0 && NothingLost(missing)
    ensures FitsAround(blobs, missing, n, blockBytes) <==> Fits(blobs, |missing|, n, blockBytes)
  {
    forall l | 0 <= l < |missing| ensures Capacity(missing[l], n) == n {
      CapacityOfNothing(missing[l], n);
    }
  }

  /** What fits around losses fits an empty slab; with nothing lost that is all. */
  lemma FitsAroundBound(blobs: seq<Blob>, missing: seq<map<Owner, Span>>, n: nat, blockBytes: nat)
    requires blockBytes > 0
    ensures FitsAround(blobs, missing, n, blockBytes) ==> Fits(blobs, |missing|, n, blockBytes)
    ensures NothingLost(missing) ==>
      (FitsAround(blobs, missing, n, blockBytes) <==> Fits(blobs, |missing|, n, blockBytes))
  {
    if NothingLost(missing) {
      FitsAroundNothing(blobs, missing, n, blockBytes);
    }
  }

  /** Every layer has lost the span listed for it, under a number new to it. */
  ghost predicate LostAs(after: seq<map<Owner, Span>>, before: seq<map<Owner, Span>>, spans: seq<Span>, k: nat)
    requires |after| == |before| == |spans|
  {
    forall l :: 0 <= l < |after| ==> Lost(k) !in before[l] && after[l] == before[l][Lost(k) := spans[l]]
  }

  /** Every layer has lost one more span: the one listed for it. */
  ghost predicate LostMore(after: seq<map<Owner, Span>>, before: seq<map<Owner, Span>>, spans: seq<Span>) {
    && |after| == |before| == |spans|
    && exists k: nat :: LostAs(after, before, spans, k)
  }

  lemma LostMoreIsLost(after: seq<map<Owner, Span>>, before: seq<map<Owner, Span>>, spans: seq<Span>)
    requires LostMore(after, before, spans)
    ensures |after| > 0 ==> !NothingLost(after)
  {
    if |after| > 0 {
      var k: nat :| LostAs(after, before, spans, k);
      assert Lost(k) in after[0];
    }
  }

  /** A number no loss carries yet. */
  lemma FreshLoss(owned: seq<map<Owner, Span>>) returns (k: nat)
    ensures forall l, j: nat :: 0 <= l < |owned| && Lost(j) in owned[l] ==> j < k
  {
    if owned == [] {
      k := 0;
    } else {
      var a := FreshLoss(owned[1..]);
      var b := FreshLossOn(owned[0]);
      k := if a < b then b else a;
      forall l, j: nat | 0 <= l < |owned| && Lost(j) in owned[l] ensures j < k {
        assert l > 0 ==> owned[l] == owned[1..][l - 1];
      }
    }
  }

  lemma FreshLossOn(owned: map<Owner, Span>) returns (k: nat)
    ensures forall j: nat :: Lost(j) in owned ==> j < k
    decreases |owned|
  {
    if o :| o in owned {
      assert (owned - {o}).Keys == owned.Keys - {o};
      k := FreshLossOn(owned - {o});
      if o.Lost? && o.raise >= k { k := o.raise + 1; }
    } else {
      k := 0;
    }
  }

  /** How an allocation ends: it may also raise, when there are more blobs than layers. */
  datatype Allocation = Placed(at: seq<Placement>) | NoRoom | IndexError

  /** How an insertion ends. */
  datatype Inserted = Kept | Refused | Raised

  /** Where one layer's blob was placed. */
  datatype Placement = Placement(blockId: int, dataOff: int, scaleOff: int)

  function PlacementAt(start: int, b: Blob, blockBytes: nat): Placement {
    Placement(start, start * blockBytes, start * blockBytes + |b.data|)
  }

  /** The placements of an allocation and the spans it reserves. */
  ghost predicate Places(allocation: seq<Placement>, pending: seq<Span>, blobs: seq<Blob>, blockBytes: nat)
    requires blockBytes > 0
  {
    && |allocation| == |pending| <= |blobs|
    && (forall l :: 0 <= l < |pending| ==> allocation[l] == PlacementAt(pending[l].start, blobs[l], blockBytes))
    && (forall l :: 0 <= l < |pending| ==> pending[l].len == BlobBlocks(blobs[l], blockBytes))
  }

  /** The blocks each blob takes. */
  function Needs(blobs: seq<Blob>, blockBytes: nat): (r: seq<nat>)
    requires blockBytes > 0
    ensures |r| == |blobs| && forall l :: 0 <= l < |r| ==> r[l] == BlobBlocks(blobs[l], blockBytes)
  {
    seq(|blobs|, l requires 0 <= l < |blobs| => BlobBlocks(blobs[l], blockBytes))
  }

  /** The free list names each of the n blocks once, save those that are lost. */
  ghost predicate IsWhole(free: seq<int>, losses: map<Owner, Span>, n: nat) {
    Distinct(free) && forall x :: x in free <==> 0 <= x < n && forall o :: o in losses ==> !losses[o].Covers(x)
  }

  /** What put_from_raw records of a prefix besides where its blobs are. */
  predicate NewEntry(e: PoolEntry, format: string, blobs: seq<Blob>, savings: real, now: int) {
    e.format == format && e.blobs == blobs && e.savings == savings && e.lastHit == now && e.hitCount == 0
  }

  class CompressedVRAMPool {
    const numLayers: nat
    const bytesPerLayer: nat
    const blockBytes: nat
    const blocksPerLayer: nat
    const score: Scoring
    const slabs: seq<array<Byte>>

    var freeLists: seq<seq<int>>
    var index: Index
    var order: seq<Hash>
    ghost var owned: seq<map<Owner, Span>>   // spans of each layer by owner
    ghost var missing: seq<map<Owner, Span>> // spans of each layer that no entry owns and no free list names
    ghost var views: seq<seq<Byte>>          // bytes of each slab

    /** The parts that never change: one slab per layer, all different. */
    ghost predicate Built() {
      && blockBytes > 0
      && blocksPerLayer == bytesPerLayer / blockBytes
      && |slabs| == numLayers
      && (forall l :: 0 <= l < |slabs| ==> slabs[l].Length == bytesPerLayer)
      && Distinct(slabs)
    }

    /** The free lists, the index and its order, with `pending` spans reserved on the first layers. */
    ghost predicate Consistent(pending: seq<Span>)
      reads this
    {
      && Built()
      && |freeLists| == numLayers
      && PoolOk(freeLists, owned, index, pending, blocksPerLayer, blockBytes)
      && missing == AllLosses(owned)
      && Distinct(order)
      && (forall h :: h in order <==> h in index)
    }

    /** `views` are the bytes of the slabs. */
    ghost predicate Mirrored()
      reads this`views, slabs
    {
      |views| == |slabs| && forall l :: 0 <= l < |slabs| ==> slabs[l][..] == views[l]
    }

    /** The slabs hold the blobs of every indexed entry at the recorded offsets. */
    ghost predicate Stored()
      reads this, slabs
    {
      Mirrored() && StoredIn(views, index)
    }

    ghost predicate Valid()
      reads this, slabs
    {
      Consistent([]) && Stored()
    }

    /** On every layer, free list and live spans partition the blocks. */
    ghost predicate Partitioned()
      reads this
    {
      && Built() && |freeLists| == numLayers
      && forall l :: 0 <= l < numLayers ==> Partition(freeLists[l], LiveSpans(index, l, blockBytes), blocksPerLayer)
    }

    /** They do exactly when nothing is missing. */
    lemma PartitionedIff()
      requires Consistent([])
      ensures Partitioned() <==> NothingLost(missing)
    {
      forall l | 0 <= l < numLayers
        ensures Partition(freeLists[l], LiveSpans(index, l, blockBytes), blocksPerLayer) <==> missing[l] == map[]
      {
        PartitionIff(freeLists, owned, index, blocksPerLayer, blockBytes, l);
      }
    }

    /** An empty pool: one slab per layer, every block free. */
    constructor (numLayers: nat, bytesPerLayer: nat, blockBytes: nat, weights: Weights)
      requires blockBytes > 0
      ensures Valid() && index == map[] && fresh(slabs) && NothingLost(missing) && Partitioned()
      ensures this.numLayers == numLayers && this.blockBytes == blockBytes
      ensures this.blocksPerLayer == bytesPerLayer / blockBytes
      ensures this.score == weights.Score
    {
      var all: seq<array<Byte>> := [];
      for l := 0 to numLayers
        invariant |all| == l && Distinct(all) && fresh(all)
        invariant forall k :: 0 <= k < l ==> all[k].Length == bytesPerLayer
      {
        var slab := new Byte[bytesPerLayer];
        all := all + [slab];
      }
      this.numLayers, this.bytesPerLayer, this.blockBytes, score := numLayers, bytesPerLayer, blockBytes, weights.Score;
      var n := bytesPerLayer / blockBytes;
      blocksPerLayer := n;
      slabs := all;
      freeLists := seq(numLayers, l => Range(0, n));
      index, order := map[], [];
      owned, missing := seq(numLayers, l => map[]), seq(numLayers, l => map[]);
      views := seq(numLayers, l requires 0 <= l < |all| reads all => all[l][..]);
      new;
      assert missing == AllLosses(owned);
      PartitionedIff();
    }

    // ----- Free lists -----

    /** _alloc_span: first fit on one layer, sorting its free list on the way. */
    method AllocSpan(layer: nat, n: nat) returns (span: Option<int>)
      requires layer < |freeLists| && Distinct(freeLists[layer]) && 1 <= n
      modifies this`freeLists
      ensures |freeLists| == |old(freeLists)|
      ensures forall l :: 0 <= l < |freeLists| && l != layer ==> freeLists[l] == old(freeLists[l])
      ensures Distinct(freeLists[layer])
      ensures span.None? ==> forall x :: x in freeLists[layer] <==> x in old(freeLists[layer])
      ensures span.None? ==> forall s :: !BlockFree(old(freeLists[layer]), s, n)
      ensures span.Some? ==> BlockFree(old(freeLists[layer]), span.value, n)
      ensures span.Some? ==> forall s :: s < span.value ==> !BlockFree(old(freeLists[layer]), s, n)
      ensures span.Some? ==> forall x :: x in freeLists[layer] <==>
                x in old(freeLists[layer]) && !Span(span.value, n).Covers(x)
    {
      var free := freeLists[layer];
      if |free| < n {
        TooFew(free, n);
        return None;
      }
      free := Sorted(free);
      freeLists := freeLists[layer := free];
      var at := FindRun(free, n);
      if at.None? {
        assert forall s :: BlockFree(free, s, n) <==> BlockFree(old(freeLists[layer]), s, n);
        return None;
      }
      var j := at.value;
      CutRun(free, j, n);
      freeLists := freeLists[layer := free[..j] + free[j + n..]];
      assert forall s :: BlockFree(free, s, n) <==> BlockFree(old(freeLists[layer]), s, n);
      span := Some(free[j]);
    }

    /** _release_entry: every block of an entry goes back to the free list of its layer. */
    method ReleaseEntry(e: PoolEntry)
      requires blockBytes > 0 && |e.blocks| <= |freeLists|
      requires forall l :: 0 <= l < |e.blocks| ==> e.blocks[l].layerId == l
      modifies this`freeLists
      ensures freeLists == Released(old(freeLists), e, blockBytes)
    {
      ghost var before := freeLists;
      for i := 0 to |e.blocks|
        invariant |freeLists| == |before|
        invariant forall l :: 0 <= l < |before| ==>
            freeLists[l] == if l < i then GivenBack(before[l], e, l, blockBytes) else before[l]
      {
        var block := e.blocks[i];
        var needed := Needed(block.dataBytes + block.scaleBytes, blockBytes);
        var l := block.layerId;
        freeLists := freeLists[l := freeLists[l] + Range(block.blockId, block.blockId + needed)];
      }
    }

    /** Pops an entry from the index and releases it. */
    method Discard(h: Hash, ghost pending: seq<Span>)
      requires Consistent(pending) && h in index
      modifies this`freeLists, this`index, this`order, this`owned
      ensures Consistent(pending) && index == old(index) - {h} && order == Drop(old(order), h)
      ensures freeLists == Released(old(freeLists), old(index)[h], blockBytes)
    {
      LossesWithout(owned, Entry(h));
      ReleaseKeeps(freeLists, owned, index, pending, blocksPerLayer, blockBytes, h);
      var e := index[h];
      index := index - {h};
      order := Drop(order, h);
      ReleaseEntry(e);
      owned := Without(owned, Entry(h));
    }

    /** _evict_one: drops the first entry, in insertion order, with the highest score; the clock is read for each. */
    method EvictOne(ghost pending: seq<Span>) returns (ok: bool, ghost nows: seq<int>, ghost victim: Hash)
      requires Consistent(pending)
      modifies this`freeLists, this`index, this`order, this`owned
      ensures Consistent(pending)
      ensures ok <==> old(index) != map[]
      ensures !ok ==> unchanged(this)
      ensures ok ==> Worst(score, old(index), old(order), nows, victim)
      ensures ok ==> index == old(index) - {victim} && order == Drop(old(order), victim)
    {
      nows, victim := [], "";
      if order == [] {
        return false, nows, victim;
      }
      var now: int := *;
      var worst := order[0];
      var worstScore := score(index[order[0]], now);
      ghost var at := 0;
      nows := [now];
      for i := 1 to |order|
        invariant |nows| == i && 0 <= at < i && worst == order[at]
        invariant worstScore == score(index[worst], nows[at])
        invariant forall k :: 0 <= k < i ==> score(index[order[k]], nows[k]) <= worstScore
        invariant forall k :: 0 <= k < at ==> score(index[order[k]], nows[k]) < worstScore
      {
        now := *;
        var s := score(index[order[i]], now);
        nows := nows + [now];
        if s > worstScore {
          worst, worstScore := order[i], s;
          at := i;
        }
      }
      assert order[at] == worst && WorstAt(score, index, order, nows, at);
      victim := worst;
      Discard(worst, pending);
      ok := true;
    }

    /** What an allocation of these blobs asks of the pool as it is. */
    ghost function Asks(blobs: seq<Blob>): Demand
      reads this
      requires blockBytes > 0
    {
      Demand(score, Needs(blobs, blockBytes), missing, blocksPerLayer, blockBytes)
    }

    /** The next layer to fill is asked for n blocks. */
    ghost predicate AsksFor(d: Demand, layer: nat, n: nat)
      reads this
    {
      && d.score == score && d.missing == missing && d.n == blocksPerLayer && d.blockBytes == blockBytes
      && layer < |d.needs| && d.needs[layer] == n
    }

    /** _alloc_span on the next layer, with the reservation recorded. */
    method TryLayer(layer: nat, n: nat, ghost pending: seq<Span>) returns (span: Option<int>)
      requires Consistent(pending) && layer == |pending| < numLayers && 1 <= n
      modifies this`freeLists, this`owned
      ensures span.Some? <==> HasRoom(old(freeLists[layer]), n)
      ensures span.Some? ==>
        n <= Capacity(missing[layer], blocksPerLayer) && Consistent(pending + [Span(span.value, n)])
      ensures span.None? ==> Consistent(pending) && !HasRoom(freeLists[layer], n)
      ensures forall l :: 0 <= l < numLayers && l != layer ==> freeLists[l] == old(freeLists[l])
    {
      ghost var before := freeLists;
      assert Partition(before[layer], owned[layer], blocksPerLayer);
      span := AllocSpan(layer, n);
      if span.Some? {
        ghost var s := Span(span.value, n);
        RoomAvoids(before[layer], owned[layer], blocksPerLayer, s.start, n);
        LossesReserve(owned, layer, s);
        ReserveKeeps(before, owned, index, pending, blocksPerLayer, blockBytes, freeLists[layer], s);
        assert freeLists == before[layer := freeLists[layer]];
        owned := owned[layer := owned[layer][Pending := s]];
      } else {
        ReorderKeeps(before[layer], freeLists[layer], owned[layer], blocksPerLayer);
        forall s ensures !BlockFree(freeLists[layer], s, n) {
          assert !BlockFree(before[layer], s, n);
        }
      }
    }

    /** A layer that is to be filled next has room exactly when it has a gap. */
    lemma RoomOnLayer(layer: nat, n: nat, pending: seq<Span>)
      requires Consistent(pending) && layer == |pending| < numLayers && 1 <= n
      ensures HasRoom(freeLists[layer], n) <==> HasGap(index, missing[layer], layer, n, blocksPerLayer, blockBytes)
    {
      assert Records(owned[layer], index, pending, layer, blockBytes);
      assert Partition(freeLists[layer], owned[layer], blocksPerLayer);
      RoomIsGap(freeLists[layer], owned[layer], index, pending, layer, n, blocksPerLayer, blockBytes);
    }

    /** Evicts one entry for a layer without room; `ok` is false when there is none, and then no room can be had. */
    method EvictFor(layer: nat, n: nat, ghost pending: seq<Span>, ghost d: Demand, ghost allowed: Eviction -> bool)
      returns (ok: bool, ghost step: Eviction)
      requires Consistent(pending) && layer == |pending| < numLayers && 1 <= n && !HasRoom(freeLists[layer], n)
      requires AsksFor(d, layer, n) && Allows(allowed, d)
      modifies this`freeLists, this`index, this`order, this`owned
      ensures Consistent(pending)
      ensures !ok ==> n > Capacity(missing[layer], blocksPerLayer) && unchanged(this) && index == map[]
      ensures ok ==> Taken(step, old(index), old(order), layer) && allowed(step) && |index| < |old(index)|
    {
      RoomOnLayer(layer, n, pending);
      ghost var before, listed := index, order;
      ghost var nows, victim;
      ok, nows, victim := EvictOne(pending);
      step := Eviction(before, listed, nows, victim, layer);
      if ok {
        assert Forced(d, step);
        assert before.Keys == index.Keys + {victim};
      } else {
        EmptyLayer(freeLists, owned, pending, blocksPerLayer, blockBytes, layer);
        EmptyLayerFits(freeLists[layer], owned[layer], blocksPerLayer, n);
      }
    }

    /** The eviction has happened to these entries, and nothing else. */
    ghost predicate Taken(step: Eviction, before: Index, listed: seq<Hash>, layer: nat)
      reads this
    {
      && step.index == before && step.order == listed && step.layer == layer
      && step.victim in before && Distinct(listed)
      && index == before - {step.victim} && order == Drop(listed, step.victim)
    }

    /** Evicts one entry and tries the layer again; `ok` is false when there was nothing to evict. */
    method Retry(layer: nat, n: nat, ghost pending: seq<Span>, ghost d: Demand, ghost allowed: Eviction -> bool)
      returns (ok: bool, span: Option<int>, ghost step: Eviction)
      requires Consistent(pending) && layer == |pending| < numLayers && 1 <= n && !HasRoom(freeLists[layer], n)
      requires AsksFor(d, layer, n) && Allows(allowed, d)
      modifies this`freeLists, this`index, this`order, this`owned
      ensures !ok ==> span.None? && n > Capacity(missing[layer], blocksPerLayer) && unchanged(this) && index == map[]
      ensures ok ==> Taken(step, old(index), old(order), layer) && allowed(step) && |index| < |old(index)|
      ensures span.Some? ==>
        n <= Capacity(missing[layer], blocksPerLayer) && Consistent(pending + [Span(span.value, n)])
      ensures span.None? ==> Consistent(pending) && !HasRoom(freeLists[layer], n)
    {
      ok, step := EvictFor(layer, n, pending, d, allowed);
      if !ok { return false, None, step; }
      span := TryLayer(layer, n, pending);
    }

    /** One layer of _allocate: take the lowest run, evicting the worst entry as long as there is none. */
    method AllocateLayer(layer: nat, n: nat, ghost pending: seq<Span>, ghost d: Demand, ghost allowed: Eviction -> bool)
      returns (span: Option<int>, ghost steps: seq<Eviction>)
      requires Consistent(pending) && layer == |pending| < numLayers && 1 <= n
      requires AsksFor(d, layer, n) && Allows(allowed, d)
      modifies this`freeLists, this`index, this`order, this`owned
      ensures LayerRun(allowed, layer, old(index), old(order), steps, index, order)
      ensures span.Some? <==> n <= Capacity(missing[layer], blocksPerLayer)
      ensures span.Some? ==> Consistent(pending + [Span(span.value, n)])
      ensures span.None? ==> Consistent(pending) && index == map[]
    {
      steps := [];
      span := TryLayer(layer, n, pending);
      while span.None?
        invariant LayerRun(allowed, layer, old(index), old(order), steps, index, order)
        invariant span.Some? ==>
          n <= Capacity(missing[layer], blocksPerLayer) && Consistent(pending + [Span(span.value, n)])
        invariant span.None? ==> Consistent(pending) && !HasRoom(freeLists[layer], n)
        decreases |index|
      {
        var ok;
        ghost var step;
        ok, span, step := Retry(layer, n, pending, d, allowed);
        if !ok { return None, steps; }
        LayerRunExtends(allowed, layer, old(index), old(order), steps, step);
        steps := steps + [step];
      }
    }

    /** Gives the spans reserved so far back to the free lists of their layers. */
    method ReturnSpans(allocation: seq<Placement>, blobs: seq<Blob>, ghost pending: seq<Span>)
      requires blockBytes > 0 && Places(allocation, pending, blobs, blockBytes) && |pending| <= |freeLists|
      modifies this`freeLists
      ensures freeLists == Returned(old(freeLists), pending)
    {
      ghost var before := freeLists;
      for rid := 0 to |allocation|
        invariant |freeLists| == |before|
        invariant forall l :: 0 <= l < |before| ==>
            freeLists[l] == if l < rid then ReturnedTo(before[l], pending, l) else before[l]
      {
        var needed := BlobBlocks(blobs[rid], blockBytes);
        var start := allocation[rid].blockId;
        freeLists := freeLists[rid := freeLists[rid] + Range(start, start + needed)];
      }
    }

    /** Rolls back a partial allocation. */
    method RollBack(allocation: seq<Placement>, blobs: seq<Blob>, ghost pending: seq<Span>)
      requires Consistent(pending) && Places(allocation, pending, blobs, blockBytes)
      modifies this`freeLists, this`owned
      ensures Consistent([])
    {
      LossesWithout(owned, Pending);
      CancelKeeps(freeLists, owned, index, pending, blocksPerLayer, blockBytes);
      ReturnSpans(allocation, blobs, pending);
      owned := Without(owned, Pending);
    }

    /** An allocation that raises keeps what it took: nobody owns it and no free list names it. */
    ghost method Abandon(pending: seq<Span>)
      requires Consistent(pending) && |pending| == numLayers
      modifies this`owned, this`missing
      ensures Consistent([]) && LostMore(missing, old(missing), pending)
    {
      var k := FreshLoss(owned);
      LoseKeeps(freeLists, owned, index, pending, blocksPerLayer, blockBytes, k);
      forall l | 0 <= l < numLayers
        ensures Losses(Given(owned, pending, Lost(k))[l]) == Losses(owned[l])[Lost(k) := pending[l]]
      {
        LossesGrow(owned, pending, k, l);
      }
      owned := Given(owned, pending, Lost(k));
      missing := AllLosses(owned);
      assert LostAs(missing, old(missing), pending, k);
    }

    /** The loop of _allocate up to the first layer that has no free list. */
    method FillLayers(blobs: seq<Blob>, ghost allowed: Eviction -> bool)
      returns (placed: Option<seq<Placement>>, ghost pending: seq<Span>, ghost steps: seq<Eviction>)
      requires Consistent([]) && Allows(allowed, Asks(blobs))
      modifies this`freeLists, this`index, this`order, this`owned
      ensures EvictionRun(allowed, old(index), old(order), steps, index, order)
      ensures placed.Some? <==> FitsAround(blobs, missing, blocksPerLayer, blockBytes)
      ensures placed.Some? ==> Consistent(pending) && Places(placed.value, pending, blobs, blockBytes)
      ensures placed.Some? ==> |pending| == if |blobs| < numLayers then |blobs| else numLayers
      ensures placed.None? ==> Consistent([]) && index == map[]
    {
      var done := [];
      pending, steps := [], [];
      while |done| < |blobs| && |done| < |freeLists|
        invariant Consistent(pending) && Places(done, pending, blobs, blockBytes)
        invariant EvictionRun(allowed, old(index), old(order), steps, index, order)
        invariant steps != [] ==> steps[|steps| - 1].layer < |done|
        invariant |done| <= numLayers && FitsAround(blobs[..|done|], missing, blocksPerLayer, blockBytes)
        decreases |blobs| - |done|
      {
        var next;
        ghost var reserved, more, at, listed := [], [], index, order;
        next, reserved, more := PlaceNext(blobs, done, pending, allowed);
        EvictionRunJoins(allowed, old(index), old(order), steps, at, listed, more, index, order);
        steps := steps + more;
        if next.None? { return None, [], steps; }
        done, pending := next.value, reserved;
      }
      FitsFirst(blobs, |done|, missing, blocksPerLayer, blockBytes);
      placed := Some(done);
    }

    /** The span of the next blob. */
    method TakeNext(blobs: seq<Blob>, layer: nat, ghost pending: seq<Span>, ghost allowed: Eviction -> bool)
      returns (span: Option<int>, ghost steps: seq<Eviction>)
      requires Consistent(pending) && layer == |pending| < |blobs| && layer < numLayers
      requires FitsAround(blobs[..layer], missing, blocksPerLayer, blockBytes) && Allows(allowed, Asks(blobs))
      modifies this`freeLists, this`index, this`order, this`owned
      ensures LayerRun(allowed, layer, old(index), old(order), steps, index, order)
      ensures span.Some? ==> FitsAround(blobs[..layer + 1], missing, blocksPerLayer, blockBytes)
      ensures span.None? ==> !FitsAround(blobs, missing, blocksPerLayer, blockBytes)
      ensures span.Some? ==> Consistent(pending + [Span(span.value, BlobBlocks(blobs[layer], blockBytes))])
      ensures span.None? ==> Consistent(pending) && index == map[]
    {
      FitsNext(blobs, layer, missing, blocksPerLayer, blockBytes);
      span, steps := AllocateLayer(layer, BlobBlocks(blobs[layer], blockBytes), pending, Asks(blobs), allowed);
    }

    /** One layer of the loop, rolling everything back when it finds no room. */
    method PlaceNext(blobs: seq<Blob>, done: seq<Placement>, ghost pending: seq<Span>, ghost allowed: Eviction -> bool)
      returns (placed: Option<seq<Placement>>, ghost reserved: seq<Span>, ghost steps: seq<Eviction>)
      requires Consistent(pending) && Places(done, pending, blobs, blockBytes) && |done| < |blobs| && |done| < numLayers
      requires FitsAround(blobs[..|done|], missing, blocksPerLayer, blockBytes) && Allows(allowed, Asks(blobs))
      modifies this`freeLists, this`index, this`order, this`owned
      ensures LayerRun(allowed, |done|, old(index), old(order), steps, index, order)
      ensures placed.Some? ==> FitsAround(blobs[..|done| + 1], missing, blocksPerLayer, blockBytes)
      ensures placed.None? ==> !FitsAround(blobs, missing, blocksPerLayer, blockBytes)
      ensures placed.Some? ==>
        |placed.value| == |done| + 1 && Consistent(reserved) && Places(placed.value, reserved, blobs, blockBytes)
      ensures placed.None? ==> Consistent([]) && index == map[]
    {
      var needed := BlobBlocks(blobs[|done|], blockBytes);
      var span;
      span, steps := TakeNext(blobs, |done|, pending, allowed);
      if span.None? {
        RollBack(done, blobs, pending);
        return None, [], steps;
      }
      PlacesAppend(done, pending, blobs, blockBytes, span.value);
      placed := Some(done + [PlacementAt(span.value, blobs[|done|], blockBytes)]);
      reserved := pending + [Span(span.value, needed)];
    }

    /**
     _allocate. Nothing having been lost, it succeeds exactly when there are no more blobs than
     layers and each fits an empty slab, however the pool is fragmented. Layer by layer, it evicts
     the worst entry as long as the layer has no room; when it finds none it has evicted everything
     and rolled its reservations back. With more blobs than layers it raises after the last layer
     and loses the spans it has taken.
     */
    method Allocate(blobs: seq<Blob>, ghost allowed: Eviction -> bool)
      returns (allocation: Allocation, ghost pending: seq<Span>, ghost steps: seq<Eviction>)
      requires Consistent([]) && Allows(allowed, Asks(blobs))
      modifies this`freeLists, this`index, this`order, this`owned, this`missing
      ensures EvictionRun(allowed, old(index), old(order), steps, index, order) && Shrunk(index, old(index))
      ensures allocation.NoRoom? <==> !FitsAround(blobs, old(missing), blocksPerLayer, blockBytes)
      ensures allocation.IndexError? ==> |blobs| > numLayers
      ensures allocation.Placed? ==> |blobs| <= numLayers
      ensures allocation.Placed? ==> Consistent(pending) && missing == old(missing)
      ensures allocation.Placed? ==> |pending| == |blobs| && Places(allocation.at, pending, blobs, blockBytes)
      ensures allocation.NoRoom? ==> Consistent([]) && index == map[] && missing == old(missing)
      ensures allocation.IndexError? ==> Consistent([]) && LostMore(missing, old(missing), pending)
      ensures allocation.IndexError? ==>
        forall l :: 0 <= l < |pending| ==> pending[l].len == BlobBlocks(blobs[l], blockBytes)
    {
      var placed;
      placed, pending, steps := FillLayers(blobs, allowed);
      EvictionRunShrinks(allowed, old(index), old(order), steps, index, order);
      if placed.None? { return NoRoom, [], steps; }
      if |placed.value| < |blobs| {
        Abandon(pending);
        return IndexError, pending, steps;
      }
      allocation := Placed(placed.value);
    }

    // ----- Slabs -----

    /** The reserved spans lie inside their slabs, with room for the blobs. */
    ghost predicate Writable(allocation: seq<Placement>, blobs: seq<Blob>) {
      && |allocation| == |blobs| <= |slabs|
      && forall l :: 0 <= l < |blobs| ==>
           && 0 <= allocation[l].dataOff
           && allocation[l].scaleOff == allocation[l].dataOff + |blobs[l].data|
           && allocation[l].dataOff + |blobs[l].Flat()| <= slabs[l].Length
    }

    /** _write_slabs: each layer's payload, then its scales. */
    method WriteSlabs(allocation: seq<Placement>, blobs: seq<Blob>)
      requires Distinct(slabs) && Mirrored() && Writable(allocation, blobs)
      modifies slabs, this`views
      ensures Mirrored()
      ensures forall l :: 0 <= l < |blobs| ==>
                views[l] == Overwrite(old(views)[l], allocation[l].dataOff, blobs[l].Flat())
      ensures forall l :: |blobs| <= l < |views| ==> views[l] == old(views)[l]
    {
      for i := 0 to |blobs|
        invariant Mirrored()
        invariant forall l :: 0 <= l < i ==>
            views[l] == Overwrite(old(views)[l], allocation[l].dataOff, blobs[l].Flat())
        invariant forall l :: i <= l < |views| ==> views[l] == old(views)[l]
      {
        WriteBlob(slabs[i], allocation[i], blobs[i]);
        views := views[i := slabs[i][..]];
      }
    }

    /** The allocation's spans fit their slabs. */
    lemma AllocationIsWritable(allocation: seq<Placement>, pending: seq<Span>, blobs: seq<Blob>)
      requires Consistent(pending) && Places(allocation, pending, blobs, blockBytes) && |pending| == |blobs|
      ensures Writable(allocation, blobs)
    {
      forall l | 0 <= l < |blobs|
        ensures 0 <= allocation[l].dataOff && allocation[l].dataOff + |blobs[l].Flat()| <= slabs[l].Length
      {
        assert Records(owned[l], index, pending, l, blockBytes) && Partition(freeLists[l], owned[l], blocksPerLayer);
        SpanInSlab(pending[l], blocksPerLayer, blockBytes, bytesPerLayer);
        BlobInSpan(pending[l].start, blobs[l], blockBytes);
      }
    }

    /** Writes an allocation's blobs; every indexed blob survives. */
    method WriteAllocation(allocation: seq<Placement>, blobs: seq<Blob>, ghost pending: seq<Span>)
      requires Consistent(pending) && Stored() && Places(allocation, pending, blobs, blockBytes) && |pending| == |blobs|
      modifies slabs, this`views
      ensures Stored()
      ensures forall l :: 0 <= l < |blobs| ==>
                HoldsBlob(views[l], PlacedAt(l, allocation[l].blockId, blobs[l], blockBytes), blobs[l])
    {
      AllocationIsWritable(allocation, pending, blobs);
      forall h, l | h in index && 0 <= l < |index[h].blocks| && l < |blobs|
        ensures HoldsBlob(Overwrite(views[l], allocation[l].dataOff, blobs[l].Flat()), index[h].blocks[l],
                          index[h].blobs[l])
      {
        SurvivesWrite(freeLists, owned, index, pending, blocksPerLayer, blockBytes, h, l, views[l], blobs[l]);
      }
      WriteSlabs(allocation, blobs);
    }

    /** The block records of a new entry. */
    method BuildBlocks(allocation: seq<Placement>, blobs: seq<Blob>, ghost pending: seq<Span>)
      returns (blocks: seq<Block>)
      requires blockBytes > 0 && Places(allocation, pending, blobs, blockBytes) && |pending| == |blobs|
      ensures |blocks| == |blobs|
      ensures forall l :: 0 <= l < |blobs| ==> blocks[l] == PlacedAt(l, allocation[l].blockId, blobs[l], blockBytes)
    {
      blocks := [];
      for l := 0 to |blobs|
        invariant |blocks| == l
        invariant forall k :: 0 <= k < l ==> blocks[k] == PlacedAt(k, allocation[k].blockId, blobs[k], blockBytes)
      {
        var blob := blobs[l];
        var scaleBytes := if blob.scales.Some? then |blob.scales.value| else 0;
        blocks := blocks + [Block(l, allocation[l].blockId, allocation[l].dataOff, |blob.data|, allocation[l].scaleOff,
                                  scaleBytes)];
      }
    }

    /** Records a written allocation in the index. */
    method Commit(h: Hash, format: string, blobs: seq<Blob>, allocation: seq<Placement>, ghost pending: seq<Span>,
                  savings: real, now: int)
      requires Consistent(pending) && Stored() && h !in index
      requires Places(allocation, pending, blobs, blockBytes) && |pending| == |blobs|
      requires forall l :: 0 <= l < |blobs| ==>
                 HoldsBlob(views[l], PlacedAt(l, allocation[l].blockId, blobs[l], blockBytes), blobs[l])
      modifies this`index, this`order, this`owned
      ensures Valid()
      ensures h in index && NewEntry(index[h], format, blobs, savings, now)
      ensures index == old(index)[h := index[h]] && order == old(order) + [h]
    {
      var blocks := BuildBlocks(allocation, blobs, pending);
      Adopt(PoolEntry(h, format, blocks, blobs, now, 0, savings), pending);
    }

    /** The new entry takes over the reserved spans. */
    method Adopt(e: PoolEntry, ghost pending: seq<Span>)
      requires Consistent(pending) && e.hash !in index && EntryOk(e.hash, e, numLayers, blockBytes)
      requires |e.blocks| == |pending|
      requires forall l :: 0 <= l < |pending| ==> pending[l] == SpanOf(e.blocks[l], blockBytes)
      modifies this`index, this`order, this`owned
      ensures Consistent([]) && index == old(index)[e.hash := e] && order == old(order) + [e.hash]
    {
      LossesAdopt(owned, pending, e.hash);
      AdoptKeeps(freeLists, owned, index, pending, blocksPerLayer, blockBytes, e);
      index := index[e.hash := e];
      order := order + [e.hash];
      owned := Given(owned, pending, Entry(e.hash));
    }

    /** Writes an allocated prefix to the slabs and records it. */
    method Record(h: Hash, format: string, blobs: seq<Blob>, allocation: seq<Placement>, ghost pending: seq<Span>,
                  savings: real, now: int)
      requires Consistent(pending) && Stored() && h !in index
      requires Places(allocation, pending, blobs, blockBytes) && |pending| == |blobs|
      modifies this`index, this`order, this`owned, this`views, slabs
      ensures Valid() && h in index && NewEntry(index[h], format, blobs, savings, now)
      ensures index - {h} == old(index) && order == old(order) + [h]
    {
      WriteAllocation(allocation, blobs, pending);
      Commit(h, format, blobs, allocation, pending, savings, now);
      assert index - {h} == old(index);
    }

    /** Allocates, writes and records a prefix that is not in the index; `left` is the order after the evictions. */
    method Insert(h: Hash, format: string, blobs: seq<Blob>, savings: real, now: int, ghost allowed: Eviction -> bool)
      returns (r: Inserted, ghost steps: seq<Eviction>, ghost left: seq<Hash>)
      requires Valid() && h !in index && Allows(allowed, Asks(blobs))
      modifies this`freeLists, this`index, this`order, this`owned, this`missing, this`views, slabs
      ensures Valid() && Shrunk(index - {h}, old(index))
      ensures EvictionRun(allowed, old(index), old(order), steps, index - {h}, left)
      ensures order == if r.Kept? then left + [h] else left
      ensures r.Refused? <==> !FitsAround(blobs, old(missing), blocksPerLayer, blockBytes)
      ensures r.Raised? <==> |blobs| > numLayers && FitsAround(blobs, old(missing), blocksPerLayer, blockBytes)
      ensures r.Kept? ==> h in index && NewEntry(index[h], format, blobs, savings, now)
      ensures r.Refused? ==> index == map[] && AllFree()
      ensures r.Raised? ==> h !in index && exists spans :: LostMore(missing, old(missing), spans)
      ensures !r.Raised? ==> missing == old(missing)
    {
      var allocation;
      ghost var pending;
      allocation, pending, steps := Allocate(blobs, allowed);
      left := order;
      assert index - {h} == index;
      if allocation.NoRoom? {
        EmptyIsAllFree();
        return Refused, steps, left;
      }
      if allocation.IndexError? { return Raised, steps, left; }
      Record(h, format, blobs, allocation.at, pending, savings, now);
      r := Kept;
    }

    /**
     put_from_raw after compression. Nothing having been lost, a prefix is kept exactly when it
     has no more layers than the pool and every blob fits an empty slab. Its bytes are then in
     the slabs, and so are those of every entry that was not evicted; if it is refused nothing
     is left in the pool. A prefix with more layers than the pool raises, and blocks are lost.

     What it evicts, `steps`, is one worst entry after another, each while the layer being filled
     has no room among the entries still there, the one replaced being gone.
     */
    method Put(h: Hash, format: string, blobs: seq<Blob>, savings: real, now: int)
      returns (r: Inserted, ghost steps: seq<Eviction>, ghost left: seq<Hash>)
      requires Valid()
      modifies this`freeLists, this`index, this`order, this`owned, this`missing, this`views, slabs
      ensures Valid() && Shrunk(index - {h}, old(index))
      ensures EvictionRun(Forcing(old(Asks(blobs))), old(index) - {h}, Drop(old(order), h), steps, index - {h}, left)
      ensures order == if r.Kept? then left + [h] else left
      ensures AllGaps(old(Asks(blobs)), old(index) - {h}) ==> index - {h} == old(index) - {h}
      ensures r.Refused? <==> !FitsAround(blobs, old(missing), blocksPerLayer, blockBytes)
      ensures r.Raised? <==> |blobs| > numLayers && FitsAround(blobs, old(missing), blocksPerLayer, blockBytes)
      ensures r.Kept? ==> h in index && NewEntry(index[h], format, blobs, savings, now)
      ensures r.Refused? ==> index == map[] && AllFree()
      ensures r.Raised? ==> h !in index && exists spans :: LostMore(missing, old(missing), spans)
      ensures !r.Raised? ==> missing == old(missing)
    {
      ghost var d, before := Asks(blobs), index - {h};
      ForcingAllows(d);
      if h in index {
        Discard(h, []);
      } else {
        DropAbsent(order, h);
        assert index - {h} == index;
      }
      ghost var listed := order;
      r, steps, left := Insert(h, format, blobs, savings, now, Forcing(d));
      if AllGaps(d, before) {
        NoneForced(d, before, listed, steps, index - {h}, left);
      }
    }

    /**
     put_from_raw on a pool that has lost nothing: when a prefix is kept, and exactly when free
     lists and live spans still partition every layer afterwards.
     */
    method PutIntoWhole(h: Hash, format: string, blobs: seq<Blob>, savings: real, now: int) returns (r: Inserted)
      requires Valid() && NothingLost(missing)
      modifies this`freeLists, this`index, this`order, this`owned, this`missing, this`views, slabs
      ensures Valid()
      ensures r.Kept? <==> |blobs| <= numLayers && Fits(blobs, numLayers, blocksPerLayer, blockBytes)
      ensures r.Raised? <==> |blobs| > numLayers && Fits(blobs, numLayers, blocksPerLayer, blockBytes)
      ensures Partitioned() <==>
        |blobs| <= numLayers || numLayers == 0 || !Fits(blobs, numLayers, blocksPerLayer, blockBytes)
    {
      FitsAroundNothing(blobs, missing, blocksPerLayer, blockBytes);
      ghost var before := missing;
      ghost var steps, left;
      r, steps, left := Put(h, format, blobs, savings, now);
      if r.Raised? {
        ghost var spans :| LostMore(missing, before, spans);
        LostMoreIsLost(missing, before, spans);
      }
      PartitionedIff();
    }

    /** What a reader of the slab relies on: payload and scales of every entry are at the offsets its block records. */
    lemma ReadBack(h: Hash, l: nat)
      requires Valid() && h in index && l < |index[h].blocks|
      ensures |index[h].blocks| == |index[h].blobs| <= numLayers
      ensures
        var b, blob, slab := index[h].blocks[l], index[h].blobs[l], slabs[l][..];
        && 0 <= b.dataOffset && b.dataOffset + b.dataBytes <= |slab|
        && 0 <= b.scaleOffset && b.scaleOffset + b.scaleBytes <= |slab|
        && slab[b.dataOffset..b.dataOffset + b.dataBytes] == blob.data
        && slab[b.scaleOffset..b.scaleOffset + b.scaleBytes] == blob.ScaleBytes()
    {
      var b, blob, slab := index[h].blocks[l], index[h].blobs[l], slabs[l][..];
      assert EntryOk(h, index[h], numLayers, blockBytes) && views[l] == slab;
      assert HoldsBlob(slab, b, blob);
      var flat := slab[b.dataOffset..b.dataOffset + |blob.Flat()|];
      assert flat[..b.dataBytes] == blob.data && flat[b.dataBytes..] == blob.ScaleBytes();
    }

    /** get: a hit only refreshes the entry's statistics. */
    method Get(h: Hash, now: int) returns (e: Option<PoolEntry>)
      requires Valid()
      modifies this`index
      ensures Valid()
      ensures e.Some? <==> h in old(index)
      ensures e.None? ==> index == old(index)
      ensures e.Some? ==> e.value == old(index)[h].(lastHit := now, hitCount := old(index)[h].hitCount + 1)
      ensures e.Some? ==> index == old(index)[h := e.value]
    {
      if h !in index { return None; }
      var entry := index[h].(lastHit := now, hitCount := index[h].hitCount + 1);
      TouchKeeps(freeLists, owned, index, blocksPerLayer, blockBytes, h, entry);
      index := index[h := entry];
      e := Some(entry);
    }

    method Delete(h: Hash) returns (ok: bool)
      requires Valid()
      modifies this`freeLists, this`index, this`order, this`owned
      ensures Valid()
      ensures ok <==> h in old(index)
      ensures index == old(index) - {h}
    {
      ok := h in index;
      if ok { Discard(h, []); }
    }

    /** clear: every entry is released and every layer is free from end to end. */
    method Clear()
      requires Valid()
      modifies this`freeLists, this`index, this`order, this`owned
      ensures Valid() && index == map[] && AllFree()
    {
      while order != []
        invariant Consistent([]) && Shrunk(index, old(index))
        decreases |order|
      {
        DropShortens(order, order[0]);
        Discard(order[0], []);
      }
      assert index == map[];
      EmptyIsAllFree();
    }

    /** Every block of every layer that is not lost is on its free list. */
    ghost predicate AllFree()
      reads this
    {
      && |freeLists| == |owned| == numLayers
      && forall l :: 0 <= l < numLayers ==> IsWhole(freeLists[l], Losses(owned[l]), blocksPerLayer)
    }

    lemma EmptyIsAllFree()
      requires Consistent([]) && index == map[]
      ensures AllFree()
    {
      forall l | 0 <= l < numLayers ensures IsWhole(freeLists[l], Losses(owned[l]), blocksPerLayer) {
        EmptyLayer(freeLists, owned, [], blocksPerLayer, blockBytes, l);
      }
    }

    // ----- Compaction -----

    /** The entries that own a block on a layer, in insertion order. */
    method CollectLive(layer: nat) returns (live: seq<Hash>)
      requires Consistent([])
      ensures LiveOn(index, live, layer)
    {
      live := [];
      for i := 0 to |order|
        invariant Distinct(live)
        invariant forall h :: h in live <==> h in order[..i] && layer < |index[h].blocks|
      {
        assert order[..i + 1] == order[..i] + [order[i]] && order[i] !in order[..i];
        if layer < |index[order[i]].blocks| {
          live := live + [order[i]];
        }
      }
      assert order[..|order|] == order;
    }

    /** The live blocks of a layer in the order of their positions, ready to be slid. */
    method SortedLive(layer: nat)
      returns (live: seq<Hash>, ghost blobs: seq<Blob>, ghost lens: seq<int>, ghost at0: seq<int>)
      requires Valid() && layer < numLayers
      ensures Ready(views[layer], index, live, blobs, lens, at0, layer, numLayers, blocksPerLayer, blockBytes)
    {
      var found := CollectLive(layer);
      var pos := map h | h in found :: index[h].blocks[layer].blockId;
      live := SortBy(found, pos);
      SortOrders(found, pos);
      blobs, lens, at0 := ReadyToSlide(layer, live, pos);
    }

    /** A valid pool's layer is ready to be slid once its live blocks are sorted. */
    lemma ReadyToSlide(layer: nat, live: seq<Hash>, pos: map<Hash, int>)
      returns (blobs: seq<Blob>, lens: seq<int>, at0: seq<int>)
      requires Valid() && layer < numLayers && LiveOn(index, live, layer)
      requires forall h :: h in live ==> h in pos && pos[h] == index[h].blocks[layer].blockId
      requires OrderedBy(live, pos)
      ensures Ready(views[layer], index, live, blobs, lens, at0, layer, numLayers, blocksPerLayer, blockBytes)
    {
      LiveInOrder(freeLists, owned, index, blocksPerLayer, blockBytes, live, layer, pos);
      blobs, at0 := LiveBlobs(index, live, layer), Positions(index, live, layer);
      lens := Lengths(blobs, blockBytes);
      forall k | 0 <= k < |live|
        ensures HoldsBlob(views[layer], PlacedAt(layer, at0[k], blobs[k], blockBytes), blobs[k])
      {
        assert live[k] in live;
        assert EntryOk(live[k], index[live[k]], numLayers, blockBytes);
        assert HoldsBlob(views[layer], index[live[k]].blocks[layer], index[live[k]].blobs[layer]);
      }
    }

    /** Installs the compacted index and the layer's new free list. */
    method Install(layer: nat, after: Index, tail: seq<int>, ghost slab: seq<Byte>, ghost spans: map<Owner, Span>)
      requires Consistent([]) && layer < numLayers && |views| == |slabs|
      requires SameContents(after, index)
      requires PoolOk(freeLists[layer := tail], owned[layer := spans], after, [], blocksPerLayer, blockBytes)
      requires StoredIn(views[layer := slab], after) && NoneLost(spans)
      modifies this`index, this`freeLists, this`owned, this`missing, this`views
      ensures Consistent([]) && StoredIn(views, index) && views == old(views)[layer := slab]
      ensures SameContents(index, old(index))
      ensures freeLists == old(freeLists)[layer := tail] && missing == old(missing)[layer := map[]]
    {
      LossesReclaimed(owned, layer, spans);
      views := views[layer := slab];
      owned := owned[layer := spans];
      missing := missing[layer := map[]];
      freeLists := freeLists[layer := tail];
      index := after;
    }

    /**
     The loop of _compact_slabs over one layer: sort the live blocks and slide them to the front.
     Blocks lost on the layer are free again.
     */
    method CompactLayer(layer: nat)
      requires Valid() && layer < numLayers
      modifies this`index, this`freeLists, this`owned, this`missing, this`views, slabs[layer]
      ensures Valid() && SameContents(index, old(index))
      ensures IsTail(freeLists[layer], blocksPerLayer) && |freeLists[layer]| >= |old(freeLists[layer])|
      ensures |freeLists[layer]| == |old(freeLists[layer])| <==> old(missing)[layer] == map[]
      ensures forall l :: 0 <= l < numLayers && l != layer ==> freeLists[l] == old(freeLists[l])
      ensures missing == old(missing)[layer := map[]]
    {
      var after, next;
      ghost var spans;
      after, next, spans := SlideInPlace(layer);
      Install(layer, after, Range(next, blocksPerLayer), slabs[layer][..], spans);
    }

    /** Sorts and slides the live blocks of a layer; the fields are not updated yet. */
    method SlideInPlace(layer: nat) returns (after: Index, next: int, ghost spans: map<Owner, Span>)
      requires Valid() && layer < numLayers
      modifies slabs[layer]
      ensures SameContents(after, index)
      ensures PoolOk(freeLists[layer := Range(next, blocksPerLayer)], owned[layer := spans], after, [], blocksPerLayer,
                     blockBytes)
      ensures NoneLost(spans) && StoredIn(views[layer := slabs[layer][..]], after)
      ensures IsTail(Range(next, blocksPerLayer), blocksPerLayer) && |Range(next, blocksPerLayer)| >= |freeLists[layer]|
      ensures |Range(next, blocksPerLayer)| == |freeLists[layer]| <==> missing[layer] == map[]
      ensures forall l :: 0 <= l < |slabs| && l != layer ==> slabs[l][..] == views[l]
    {
      var live;
      ghost var blobs, lens, at0;
      live, blobs, lens, at0 := SortedLive(layer);
      ghost var at;
      after, next, at := SlideLayer(slabs[layer], blocksPerLayer, blockBytes, layer, index, live, numLayers, blobs,
                                    lens, at0);
      spans := CompactValues(freeLists, owned, views, index, Layout(slabs[layer][..], after, next), live, blobs, lens,
                             at0, at, layer,
                             blocksPerLayer, blockBytes);
    }

    /**
     _compact_slabs: afterwards every live blob is still in its slab, at the offsets its record
     gives, and the free blocks of each layer form one tail: those that were free before and
     those that were lost.
     */
    method CompactSlabs()
      requires Valid()
      modifies this`index, this`freeLists, this`owned, this`missing, this`views, slabs
      ensures Valid() && SameContents(index, old(index))
      ensures NothingLost(missing) && Partitioned()
      ensures forall l :: 0 <= l < numLayers ==> IsTail(freeLists[l], blocksPerLayer)
      ensures forall l :: 0 <= l < numLayers ==> |freeLists[l]| >= |old(freeLists[l])|
      ensures forall l :: 0 <= l < numLayers ==> (|freeLists[l]| == |old(freeLists[l])| <==> old(missing)[l] == map[])
    {
      ghost var lost, free := missing, freeLists;
      for layer := 0 to numLayers
        invariant Valid() && SameContents(index, old(index))
        invariant forall l :: 0 <= l < layer ==> missing[l] == map[] && IsTail(freeLists[l], blocksPerLayer)
        invariant forall l :: layer <= l < numLayers ==> missing[l] == lost[l] && freeLists[l] == free[l]
        invariant forall l :: 0 <= l < layer ==>
          |freeLists[l]| >= |free[l]| && (|freeLists[l]| == |free[l]| <==> lost[l] == map[])
      {
        ghost var before := index;
        CompactLayer(layer);
        SameContentsTrans(index, before, old(index));
      }
      PartitionedIff();
    }

    /** _allocate on a whole pool: the entries that remain are still stored. */
    method AllocateStored(blobs: seq<Blob>) returns (allocation: Allocation, ghost pending: seq<Span>)
      requires Valid()
      modifies this`freeLists, this`index, this`order, this`owned, this`missing
      ensures Shrunk(index, old(index)) && Stored()
      ensures allocation.NoRoom? <==> !FitsAround(blobs, old(missing), blocksPerLayer, blockBytes)
      ensures allocation.IndexError? ==> |blobs| > numLayers && Consistent([])
      ensures allocation.Placed? ==> |blobs| <= numLayers && Consistent(pending)
      ensures allocation.Placed? ==> |pending| == |blobs| && Places(allocation.at, pending, blobs, blockBytes)
      ensures allocation.NoRoom? ==> Consistent([]) && index == map[] && missing == old(missing)
    {
      ghost var steps;
      allocation, pending, steps := Allocate(blobs, _ => true);
    }

    /**
     _allocate_with_compaction. When nothing is lost it ends as _allocate does; in any case it
     finds room exactly when the blobs fit empty slabs, since compaction frees what was lost.
     */
    method AllocateWithCompaction(blobs: seq<Blob>) returns (allocation: Allocation, ghost pending: seq<Span>)
      requires Valid()
      modifies this`freeLists, this`index, this`order, this`owned, this`missing, this`views, slabs
      ensures Shrunk(index, old(index)) && Stored()
      ensures allocation.NoRoom? <==> !Fits(blobs, numLayers, blocksPerLayer, blockBytes)
      ensures allocation.IndexError? ==> |blobs| > numLayers && Consistent([])
      ensures allocation.Placed? ==> |blobs| <= numLayers && Consistent(pending)
      ensures allocation.Placed? ==> |pending| == |blobs| && Places(allocation.at, pending, blobs, blockBytes)
      ensures allocation.NoRoom? ==> Consistent([]) && index == map[] && NothingLost(missing)
      ensures NothingLost(old(missing)) ==>
        (allocation.NoRoom? <==> !FitsAround(blobs, old(missing), blocksPerLayer, blockBytes))
    {
      FitsAroundBound(blobs, missing, blocksPerLayer, blockBytes);
      allocation, pending := AllocateStored(blobs);
      if !allocation.NoRoom? { return; }
      allocation, pending := RetryCompacted(blobs);
    }

    /** The second attempt, on a compacted pool. */
    method RetryCompacted(blobs: seq<Blob>) returns (allocation: Allocation, ghost pending: seq<Span>)
      requires Valid() && index == map[]
      modifies this`freeLists, this`index, this`order, this`owned, this`missing, this`views, slabs
      ensures index == map[] && Stored()
      ensures allocation.NoRoom? <==> !Fits(blobs, numLayers, blocksPerLayer, blockBytes)
      ensures allocation.IndexError? ==> |blobs| > numLayers && Consistent([])
      ensures allocation.Placed? ==> |blobs| <= numLayers && Consistent(pending)
      ensures allocation.Placed? ==> |pending| == |blobs| && Places(allocation.at, pending, blobs, blockBytes)
      ensures allocation.NoRoom? ==> Consistent([]) && index == map[] && NothingLost(missing)
    {
      CompactEmpty();
      FitsAroundNothing(blobs, missing, blocksPerLayer, blockBytes);
      allocation, pending := AllocateStored(blobs);
    }

    /** Compacting a pool without entries: what was lost is free again. */
    method CompactEmpty()
      requires Valid() && index == map[]
      modifies this`freeLists, this`index, this`order, this`owned, this`missing, this`views, slabs
      ensures Valid() && index == map[] && NothingLost(missing)
    {
      CompactSlabs();
    }
  }

  /** A prefix of two layers put into a pool of one layer leaves a block that nobody owns and no list names. */
  method LeakedBlock(format: string, savings: real, now: int) returns (pool: CompressedVRAMPool, r: Inserted)
    ensures fresh(pool) && pool.Valid() && r.Raised? && !pool.Partitioned()
  {
    pool := new CompressedVRAMPool(1, 16, 16, Weights(1.0, 1.0, 1.0, 1.0));
    var blob := Blob([0], None);
    assert BlobBlocks(blob, 16) == 1;
    r := pool.PutIntoWhole("h", format, [blob, blob], savings, now);
    assert r.Raised?;
  }

  /** Slides the live spans of one layer to the front of its slab, moving bytes and block records. */
  method SlideLayer(slab: array<Byte>, n: nat, blockBytes: nat, layer: nat, before: Index, live: seq<Hash>,
                    ghost numLayers: nat, ghost blobs: seq<Blob>, ghost lens: seq<int>, ghost at0: seq<int>)
    returns (index: Index, next: int, ghost at: seq<int>)
    requires Ready(slab[..], before, live, blobs, lens, at0, layer, numLayers, n, blockBytes)
    modifies slab
    ensures Layout(slab[..], index, next) == Slide(old(slab[..]), before, live, layer, blockBytes, |live|)
    ensures Progress(Layout(slab[..], index, next), before, live, blobs, lens, at0, at, layer, n, blockBytes, |live|)
  {
    next := 0;
    index := before;
    ghost var slab0 := slab[..];
    for i := 0 to |live|
      invariant Layout(slab[..], index, next) == Slide(slab0, before, live, layer, blockBytes, i)
    {
      TurnIsDefined(slab0, before, live, blobs, lens, at0, layer, numLayers, n, blockBytes, i);
      index, next := SlideTurn(slab, index, next, live[i], layer, blockBytes);
    }
    at := SlideProgress(slab0, before, live, blobs, lens, at0, layer, numLayers, n, blockBytes, |live|);
  }

  /** One turn of the loop over the sorted live blocks. */
  method SlideTurn(slab: array<Byte>, before: Index, next0: int, h: Hash, layer: nat, blockBytes: nat)
    returns (index: Index, next: int)
    requires blockBytes > 0 && TurnDefined(Layout(slab[..], before, next0), h, layer, blockBytes)
    modifies slab
    ensures Layout(slab[..], index, next) == SlideOne(Layout(old(slab[..]), before, next0), h, layer, blockBytes)
  {
    index := before;
    var block := index[h].blocks[layer];
    var needed := Needed(block.dataBytes + block.scaleBytes, blockBytes);
    if block.blockId != next0 {
      var oldOff, newOff, spanBytes := block.blockId * blockBytes, next0 * blockBytes, needed * blockBytes;
      CopyWithin(slab, oldOff, newOff, spanBytes);
      index := index[h := Relocate(index[h], layer, next0, blockBytes)];
    }
    next := next0 + needed;
  }

  /** slab[to..].copy_(slab[from..]) with value semantics: all reads happen before all writes. */
  method CopyWithin(a: array<Byte>, from: nat, to: nat, size: nat)
    requires from + size <= a.Length && to + size <= a.Length
    modifies a
    ensures a[..] == Copied(old(a[..]), from, to, size)
  {
    forall i | 0 <= i < size {
      a[to + i] := a[from + i];
    }
  }

  method WriteBytes(a: array<Byte>, off: nat, data: seq<Byte>)
    requires off + |data| <= a.Length
    modifies a
    ensures a[..] == Overwrite(old(a[..]), off, data)
  {
    forall i | 0 <= i < |data| {
      a[off + i] := data[i];
    }
  }

  method WriteBlob(slab: array<Byte>, at: Placement, blob: Blob)
    requires 0 <= at.dataOff && at.scaleOff == at.dataOff + |blob.data|
    requires at.dataOff + |blob.Flat()| <= slab.Length
    modifies slab
    ensures slab[..] == Overwrite(old(slab[..]), at.dataOff, blob.Flat())
  {
    WriteBytes(slab, at.dataOff, blob.data);
    if blob.scales.Some? && |blob.scales.value| > 0 {
      WriteBytes(slab, at.scaleOff, blob.scales.value);
      OverwriteTwice(old(slab[..]), at.dataOff, blob.data, blob.scales.value);
    } else {
      assert blob.Flat() == blob.data;
    }
  }

  lemma PlacesAppend(placed: seq<Placement>, pending: seq<Span>, blobs: seq<Blob>, blockBytes: nat, start: int)
    requires blockBytes > 0 && Places(placed, pending, blobs, blockBytes) && |placed| < |blobs|
    ensures var b := blobs[|placed|];
            Places(placed + [PlacementAt(start, b, blockBytes)], pending + [Span(start, BlobBlocks(b, blockBytes))],
                   blobs, blockBytes)
  {
  }

  /** A list shorter than n cannot contain n consecutive numbers. */
  lemma TooFew(free: seq<int>, n: nat)
    requires |free| < n
    ensures forall s :: !BlockFree(free, s, n)
  {
    forall s ensures !BlockFree(free, s, n) {
      if BlockFree(free, s, n) {
        var r := Range(s, s + n);
        DistinctSize(r);
        var a, b := set x | x in r, set x | x in free;
        assert a <= b;
        SubsetSize(a, b);
        ListSize(free);
      }
    }
  }

  lemma {:induction false} SubsetSize(a: set<int>, b: set<int>)
    requires a <= b
    ensures |a| <= |b|
  {
    assert b == a + (b - a);
  }

  lemma {:induction false} ListSize(a: seq<int>)
    ensures |set x | x in a| <= |a|
  {
    if a != [] {
      var front, last := a[..|a| - 1], a[|a| - 1];
      ListSize(front);
      assert (set x | x in a) == (set x | x in front) + {last};
    }
  }

  /** Cutting a run out of an ascending list removes exactly its numbers. */
  lemma CutRun(free: seq<int>, j: nat, n: nat)
    requires Ascending(free) && 1 <= n && RunAt(free, j, n)
    ensures var rest := free[..j] + free[j + n..];
            Distinct(rest) && forall x :: x in rest <==> x in free && !Span(free[j], n).Covers(x)
    ensures BlockFree(free, free[j], n)
  {
    var rest := free[..j] + free[j + n..];
    forall x ensures x in rest <==> x in free && !Span(free[j], n).Covers(x) {
      if x in free {
        var k :| 0 <= k < |free| && free[k] == x;
        if k < j {
          assert rest[k] == x;
        } else if k >= j + n {
          assert rest[k - n] == x;
          assert free[j + n - 1] < free[k];
        }
      }
    }
    forall x | free[j] <= x < free[j] + n ensures x in free {
      assert free[j + (x - free[j])] == x;
    }
  }
}
