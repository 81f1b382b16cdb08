/**
 Which entries an insertion into the compressed pool evicts: the scores, the worst entry, and a run
 of evictions each of which was forced by a layer without room.
 */
module PoolEviction {
  import opened Wrappers
  import opened SlabLayer
  import opened PoolModel

  /** How evictable an entry is at a time. The pool's runs of evictions are stated for every way to score. */
  type Scoring = (PoolEntry, int) -> real

  /** Weights of the eviction score. */
  datatype Weights = Weights(alpha: real, beta: real, gamma: real, delta: real) {
    /** _reuse_score: higher is more evictable. */
    function Score(e: PoolEntry, now: int): real {
      Combined(Times(alpha, Age(e, now)), Over(beta, Hits(e)), Times(gamma, SizeMb(e)), Times(delta, Savings(e)))
    }
  }

  function Times(x: real, y: real): real { x * y }

  function Over(x: real, y: real): real
    requires y != 0.0
  {
    x / y
  }

  function Combined(age: real, hits: real, size: real, savings: real): real {
    age + hits + size - savings
  }

  lemma CombinedOrders(age: real, hits: real, size: real, savings: real, age': real, hits': real, size': real,
                       savings': real)
    requires age <= age' && hits <= hits' && size <= size' && savings >= savings'
    ensures Combined(age, hits, size, savings) <= Combined(age', hits', size', savings')
    ensures age < age' ==> Combined(age, hits, size, savings) < Combined(age', hits', size', savings')
  {
  }

  /** Seconds since the last hit, the clock counting nanoseconds. */
  function Age(e: PoolEntry, now: int): real {
    if now > e.lastHit then (now - e.lastHit) as real / 1000000000.0 else 0.0
  }

  function Hits(e: PoolEntry): (r: real)
    ensures r >= 1.0
  {
    if e.hitCount > 1 then e.hitCount as real else 1.0
  }

  function SizeMb(e: PoolEntry): real {
    EntryBytes(e) as real / 1048576.0
  }

  function Savings(e: PoolEntry): real {
    if e.savings > 0.0 then e.savings else 0.0
  }

  function EntryBytes(e: PoolEntry): nat {
    BlockBytes(e.blocks)
  }

  function BlockBytes(blocks: seq<Block>): nat {
    if blocks == [] then 0 else blocks[0].dataBytes + blocks[0].scaleBytes + BlockBytes(blocks[1..])
  }

  /** The longer an entry has gone without a hit, the higher its score. */
  lemma AgeRaises(w: Weights, e: PoolEntry, t: int, now: int)
    requires w.alpha > 0.0 && t < e.lastHit
    ensures w.Score(e, now) <= w.Score(e.(lastHit := t), now)
    ensures t < now ==> w.Score(e, now) < w.Score(e.(lastHit := t), now)
  {
    var e' := e.(lastHit := t);
    MulOrder(w.alpha, Age(e, now), Age(e', now));
    Ordered(w, e, e', now);
  }

  /** The more it was hit, the lower. */
  lemma HitsLower(w: Weights, e: PoolEntry, k: nat, now: int)
    requires w.beta >= 0.0 && e.hitCount <= k
    ensures w.Score(e.(hitCount := k), now) <= w.Score(e, now)
  {
    var e' := e.(hitCount := k);
    DivOrder(w.beta, Hits(e), Hits(e'));
    Ordered(w, e', e, now);
  }

  /** The larger it is, the higher. */
  lemma SizeRaises(w: Weights, e: PoolEntry, blocks: seq<Block>, now: int)
    requires w.gamma >= 0.0 && BlockBytes(e.blocks) <= BlockBytes(blocks)
    ensures w.Score(e, now) <= w.Score(e.(blocks := blocks), now)
  {
    var e' := e.(blocks := blocks);
    MulOrder(w.gamma, SizeMb(e), SizeMb(e'));
    Ordered(w, e, e', now);
  }

  /** The more time it saves, the lower. */
  lemma SavingsLower(w: Weights, e: PoolEntry, ms: real, now: int)
    requires w.delta >= 0.0 && e.savings <= ms
    ensures w.Score(e.(savings := ms), now) <= w.Score(e, now)
  {
    var e' := e.(savings := ms);
    MulOrder(w.delta, Savings(e), Savings(e'));
    Ordered(w, e', e, now);
  }

  /** What a score is measured in: a second of age adds alpha, and a mebibyte of size adds gamma. */
  lemma AgeAndSizeCount(w: Weights, e: PoolEntry, blocks: seq<Block>, now: int)
    requires e.lastHit <= now && BlockBytes(blocks) == BlockBytes(e.blocks) + 1048576
    ensures w.Score(e, now + 1000000000) == w.Score(e, now) + w.alpha
    ensures w.Score(e.(blocks := blocks), now) == w.Score(e, now) + w.gamma
  {
    assert Age(e, now + 1000000000) == Age(e, now) + 1.0;
    TimesNext(w.alpha, Age(e, now));
    TimesNext(w.gamma, SizeMb(e));
  }

  /** A millisecond saved takes delta off, and every doubling of the hits halves what beta adds. */
  lemma SavingsAndHitsCount(w: Weights, e: PoolEntry, now: int)
    requires e.savings >= 0.0 && e.hitCount > 0
    ensures w.Score(e.(savings := e.savings + 1.0), now) == w.Score(e, now) - w.delta
    ensures w.Score(e.(hitCount := 2 * e.hitCount), now) == w.Score(e, now) - w.beta / (2 * e.hitCount) as real
  {
    TimesNext(w.delta, Savings(e));
    OverTwice(w.beta, e.hitCount as real);
  }

  lemma TimesNext(w: real, x: real)
    ensures Times(w, x + 1.0) == Times(w, x) + w
  {
  }

  lemma OverTwice(w: real, x: real)
    requires x > 0.0
    ensures Over(w, 2.0 * x) == Over(w, x) - w / (2.0 * x)
  {
    var half := w / (2.0 * x);
    assert half * (2.0 * x) == w;
    assert (half + half) * x == w;
  }

  lemma Ordered(w: Weights, a: PoolEntry, b: PoolEntry, now: int)
    requires Times(w.alpha, Age(a, now)) <= Times(w.alpha, Age(b, now))
    requires Over(w.beta, Hits(a)) <= Over(w.beta, Hits(b))
    requires Times(w.gamma, SizeMb(a)) <= Times(w.gamma, SizeMb(b))
    requires Times(w.delta, Savings(a)) >= Times(w.delta, Savings(b))
    ensures w.Score(a, now) <= w.Score(b, now)
    ensures Times(w.alpha, Age(a, now)) < Times(w.alpha, Age(b, now)) ==> w.Score(a, now) < w.Score(b, now)
  {
    CombinedOrders(Times(w.alpha, Age(a, now)), Over(w.beta, Hits(a)), Times(w.gamma, SizeMb(a)),
                   Times(w.delta, Savings(a)),
                   Times(w.alpha, Age(b, now)), Over(w.beta, Hits(b)), Times(w.gamma, SizeMb(b)),
                   Times(w.delta, Savings(b)));
  }

  lemma MulOrder(w: real, x: real, y: real)
    requires w >= 0.0 && x <= y
    ensures Times(w, x) <= Times(w, y)
    ensures w > 0.0 && x < y ==> Times(w, x) < Times(w, y)
  {
  }

  lemma DivOrder(w: real, x: real, y: real)
    requires w >= 0.0 && 0.0 < x <= y
    ensures Over(w, y) <= Over(w, x)
  {
    assert w / x * x == w && w / x * x <= w / x * y;
    assert w / y * y == w;
  }

  /** Removing a key from the insertion order. */
  function Drop(order: seq<Hash>, h: Hash): (r: seq<Hash>)
    requires Distinct(order)
    ensures Distinct(r) && forall g :: g in r <==> g in order && g != h
  {
    if order == [] then []
    else
      var front, last := order[..|order| - 1], order[|order| - 1];
      assert order == front + [last] && last !in front;
      if last == h then front else
        var r := Drop(front, h);
        assert forall g :: g in r + [last] <==> g in r || g == last;
        r + [last]
  }

  lemma {:induction false} DropAbsent(order: seq<Hash>, h: Hash)
    requires Distinct(order) && h !in order
    ensures Drop(order, h) == order
  {
    if order != [] {
      DropAbsent(order[..|order| - 1], h);
    }
  }

  lemma {:induction false} DropShortens(order: seq<Hash>, h: Hash)
    requires Distinct(order) && h in order
    ensures |Drop(order, h)| == |order| - 1
  {
    var front, last := order[..|order| - 1], order[|order| - 1];
    if last != h {
      DropShortens(front, h);
    }
  }

  /** The highest score, and the earliest inserted of those that have it; entry k is scored at nows[k]. */
  ghost predicate Worst(score: Scoring, index: Index, order: seq<Hash>, nows: seq<int>, h: Hash) {
    |nows| == |order| && exists at :: 0 <= at < |order| && order[at] == h && WorstAt(score, index, order, nows, at)
  }

  ghost predicate WorstAt(score: Scoring, index: Index, order: seq<Hash>, nows: seq<int>, at: nat)
    requires at < |order| == |nows|
  {
    && order[at] in index
    && (forall k :: 0 <= k < |order| && order[k] in index ==>
          score(index[order[k]], nows[k]) <= score(index[order[at]], nows[at]))
    && (forall k :: 0 <= k < at && order[k] in index ==>
          score(index[order[k]], nows[k]) < score(index[order[at]], nows[at]))
  }

  // ----- Room on a layer -----

  /** Some n consecutive blocks are free. */
  ghost predicate HasRoom(free: seq<int>, n: int) {
    exists s :: BlockFree(free, s, n)
  }

  /** The k blocks from s on belong to no entry and are not lost. */
  ghost predicate Gap(index: Index, losses: map<Owner, Span>, l: nat, k: nat, n: nat, blockBytes: nat, s: int)
    requires blockBytes > 0
  {
    && 0 <= s && s + k <= n
    && (forall h :: h in index && l < |index[h].blocks| ==> SpanOf(index[h].blocks[l], blockBytes).Apart(Span(s, k)))
    && (forall o :: o in losses ==> losses[o].Apart(Span(s, k)))
  }

  ghost predicate HasGap(index: Index, losses: map<Owner, Span>, l: nat, k: nat, n: nat, blockBytes: nat)
    requires blockBytes > 0
  {
    exists s :: Gap(index, losses, l, k, n, blockBytes, s)
  }

  /** On a layer without a reservation, free runs are exactly the gaps. */
  lemma RoomIsGap(free: seq<int>, owned: map<Owner, Span>, index: Index, pending: seq<Span>, l: nat, k: nat, n: nat,
                  blockBytes: nat)
    requires blockBytes > 0 && 1 <= k && |pending| <= l
    requires Records(owned, index, pending, l, blockBytes) && Partition(free, owned, n)
    ensures HasRoom(free, k) <==> HasGap(index, Losses(owned), l, k, n, blockBytes)
  {
    forall s | BlockFree(free, s, k) ensures Gap(index, Losses(owned), l, k, n, blockBytes, s) {
      RunIsGap(free, owned, index, pending, l, k, n, blockBytes, s);
    }
    forall s | Gap(index, Losses(owned), l, k, n, blockBytes, s) ensures BlockFree(free, s, k) {
      GapIsRun(free, owned, index, pending, l, k, n, blockBytes, s);
    }
  }

  lemma RunIsGap(free: seq<int>, owned: map<Owner, Span>, index: Index, pending: seq<Span>, l: nat, k: nat, n: nat,
                 blockBytes: nat, s: int)
    requires blockBytes > 0 && 1 <= k && |pending| <= l
    requires Records(owned, index, pending, l, blockBytes) && Partition(free, owned, n) && BlockFree(free, s, k)
    ensures Gap(index, Losses(owned), l, k, n, blockBytes, s)
  {
    assert s in free && s + k - 1 in free;
    forall o | o in owned ensures owned[o].Apart(Span(s, k)) {
      var t := owned[o];
      if !t.Apart(Span(s, k)) {
        var x := if t.start < s then s else t.start;
        assert t.Covers(x) && x in free;
      }
    }
    forall h | h in index && l < |index[h].blocks| ensures SpanOf(index[h].blocks[l], blockBytes).Apart(Span(s, k)) {
      assert Entry(h) in owned;
    }
  }

  lemma GapIsRun(free: seq<int>, owned: map<Owner, Span>, index: Index, pending: seq<Span>, l: nat, k: nat, n: nat,
                 blockBytes: nat, s: int)
    requires blockBytes > 0 && 1 <= k && |pending| <= l
    requires Records(owned, index, pending, l, blockBytes) && Partition(free, owned, n)
    requires Gap(index, Losses(owned), l, k, n, blockBytes, s)
    ensures BlockFree(free, s, k)
  {
    forall o | o in owned ensures owned[o].Apart(Span(s, k)) {
      match o {
        case Entry(h) =>
        case Pending =>
        case Lost(_) => assert o in Losses(owned);
      }
    }
    forall x | s <= x < s + k ensures x in free {
      assert 0 <= x < n && Span(s, k).Covers(x);
      assert forall o :: o in owned ==> !owned[o].Covers(x);
    }
  }

  // ----- Runs of evictions -----

  /** What an allocation asks of each layer, and of which pool: its scores, lost spans and blocks per layer. */
  datatype Demand = Demand(score: Scoring, needs: seq<nat>, missing: seq<map<Owner, Span>>, n: nat, blockBytes: nat)

  /** One eviction: the entries and their order before it, the clock readings, the victim and the layer being filled. */
  datatype Eviction = Eviction(index: Index, order: seq<Hash>, nows: seq<int>, victim: Hash, layer: nat)

  /** The victim was the worst entry, and the layer being filled had no room for what it needs. */
  ghost predicate Forced(d: Demand, e: Eviction) {
    && d.blockBytes > 0 && e.layer < |d.needs| && e.layer < |d.missing|
    && Worst(d.score, e.index, e.order, e.nows, e.victim)
    && !HasGap(e.index, d.missing[e.layer], e.layer, d.needs[e.layer], d.n, d.blockBytes)
  }

  /** The evictions that a demand forces, as a function. */
  ghost function Forcing(d: Demand): Eviction -> bool {
    e => Forced(d, e)
  }

  /** Every eviction that the demand forces is allowed. */
  ghost predicate Allows(allowed: Eviction -> bool, d: Demand) {
    forall e {:trigger Forced(d, e)} :: Forced(d, e) ==> allowed(e)
  }

  lemma ForcingAllows(d: Demand)
    ensures Allows(Forcing(d), d)
  {
  }

  /** Entries and order before and after a run of evictions, each allowed when it happened, layer after layer. */
  ghost predicate EvictionRun(allowed: Eviction -> bool, index: Index, order: seq<Hash>, steps: seq<Eviction>,
                              index': Index, order': seq<Hash>)
  {
    if steps == [] then index' == index && order' == order
    else
      var last := steps[|steps| - 1];
      && allowed(last) && last.victim in last.index && Distinct(last.order)
      && (|steps| > 1 ==> steps[|steps| - 2].layer <= last.layer)
      && index' == last.index - {last.victim} && order' == Drop(last.order, last.victim)
      && EvictionRun(allowed, index, order, steps[..|steps| - 1], last.index, last.order)
  }

  lemma EvictionRunExtends(allowed: Eviction -> bool, index: Index, order: seq<Hash>, steps: seq<Eviction>, e: Eviction)
    requires EvictionRun(allowed, index, order, steps, e.index, e.order)
    requires allowed(e) && e.victim in e.index && Distinct(e.order)
    requires steps != [] ==> steps[|steps| - 1].layer <= e.layer
    ensures EvictionRun(allowed, index, order, steps + [e], e.index - {e.victim}, Drop(e.order, e.victim))
  {
    assert (steps + [e])[..|steps|] == steps;
  }

  /** A run on one layer. */
  ghost predicate LayerRun(allowed: Eviction -> bool, layer: nat, index: Index, order: seq<Hash>, steps: seq<Eviction>,
                           index': Index, order': seq<Hash>)
  {
    && EvictionRun(allowed, index, order, steps, index', order')
    && forall i :: 0 <= i < |steps| ==> steps[i].layer == layer
  }

  lemma LayerRunExtends(allowed: Eviction -> bool, layer: nat, index: Index, order: seq<Hash>, steps: seq<Eviction>,
                        e: Eviction)
    requires LayerRun(allowed, layer, index, order, steps, e.index, e.order) && e.layer == layer
    requires allowed(e) && e.victim in e.index && Distinct(e.order)
    ensures LayerRun(allowed, layer, index, order, steps + [e], e.index - {e.victim}, Drop(e.order, e.victim))
  {
    EvictionRunExtends(allowed, index, order, steps, e);
  }

  /** One run after another is a run. */
  lemma {:induction false} EvictionRunJoins(allowed: Eviction -> bool, index: Index, order: seq<Hash>, s: seq<Eviction>,
                                            index': Index, order': seq<Hash>, t: seq<Eviction>, index'': Index,
                                            order'': seq<Hash>)
    requires EvictionRun(allowed, index, order, s, index', order')
    requires EvictionRun(allowed, index', order', t, index'', order'')
    requires s != [] && t != [] ==> s[|s| - 1].layer <= t[0].layer
    ensures EvictionRun(allowed, index, order, s + t, index'', order'')
  {
    if t == [] {
      assert s + t == s;
    } else {
      var n := |t| - 1;
      EvictionRunJoins(allowed, index, order, s, index', order', t[..n], t[n].index, t[n].order);
      JoinedLast(s, t);
      EvictionRunExtends(allowed, index, order, s + t[..n], t[n]);
    }
  }

  lemma JoinedLast(s: seq<Eviction>, t: seq<Eviction>)
    requires t != []
    ensures s + t == s + t[..|t| - 1] + [t[|t| - 1]]
    ensures |t| > 1 ==> (s + t[..|t| - 1])[|s| + |t| - 2] == t[|t| - 2]
  {
  }

  /** The first eviction of a run happens to the entries before it. */
  lemma {:induction false} EvictionRunStarts(allowed: Eviction -> bool, index: Index, order: seq<Hash>,
                                             steps: seq<Eviction>, index': Index, order': seq<Hash>)
    requires EvictionRun(allowed, index, order, steps, index', order') && steps != []
    ensures allowed(steps[0]) && steps[0].index == index
  {
    var n := |steps| - 1;
    if n > 0 {
      EvictionRunStarts(allowed, index, order, steps[..n], steps[n].index, steps[n].order);
    }
  }

  /** Entries may be dropped, but those that remain are untouched. */
  ghost predicate Shrunk(index: Index, before: Index) {
    forall h :: h in index ==> h in before && index[h] == before[h]
  }

  /** As many entries go as there are evictions, and the others stay as they are. */
  lemma {:induction false} EvictionRunShrinks(allowed: Eviction -> bool, index: Index, order: seq<Hash>,
                                              steps: seq<Eviction>, index': Index, order': seq<Hash>)
    requires EvictionRun(allowed, index, order, steps, index', order')
    ensures Shrunk(index', index) && |steps| + |index'| == |index|
  {
    if steps != [] {
      var n := |steps| - 1;
      EvictionRunShrinks(allowed, index, order, steps[..n], steps[n].index, steps[n].order);
      assert steps[n].index.Keys == index'.Keys + {steps[n].victim};
    }
  }

  /** Every layer has room for what is asked of it. */
  ghost predicate AllGaps(d: Demand, index: Index) {
    d.blockBytes > 0 && forall l :: 0 <= l < |d.needs| && l < |d.missing| ==>
      HasGap(index, d.missing[l], l, d.needs[l], d.n, d.blockBytes)
  }

  /** Then nothing is evicted. */
  lemma NoneForced(d: Demand, index: Index, order: seq<Hash>, steps: seq<Eviction>, index': Index, order': seq<Hash>)
    requires EvictionRun(Forcing(d), index, order, steps, index', order') && AllGaps(d, index)
    ensures steps == [] && index' == index && order' == order
  {
    if steps != [] {
      EvictionRunStarts(Forcing(d), index, order, steps, index', order');
    }
  }
}
