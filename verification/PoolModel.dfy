/**
 The bookkeeping of the compressed slab pool on values: blobs, entries, the spans each layer's
 entries own, and what releasing, adopting or moving an entry does to the partition of blocks.
 */
module PoolModel {
  import opened Wrappers
  import opened SlabLayer

  type Hash = string

  /** The output of a codec for one layer: packed payload and optional scales. */
  datatype Blob = Blob(data: seq<Byte>, scales: Option<seq<Byte>>) {
    function ScaleBytes(): seq<Byte> {
      if scales.Some? then scales.value else []
    }

    /** The bytes as they lie in a slab. */
    function Flat(): seq<Byte> {
      data + ScaleBytes()
    }
  }

  datatype Block = Block(layerId: nat, blockId: int, dataOffset: int, dataBytes: nat, scaleOffset: int, scaleBytes: nat)

  datatype PoolEntry = PoolEntry(hash: Hash, format: string, blocks: seq<Block>, blobs: seq<Blob>,
                                 lastHit: int, hitCount: nat, savings: real)

  type Index = map<Hash, PoolEntry>

  /** Blocks taken by `size` bytes: the ceiling of the quotient, and never less than one. */
  function Needed(size: nat, blockBytes: nat): (n: nat)
    requires blockBytes > 0
    ensures 1 <= n
  {
    var q := (size + blockBytes - 1) / blockBytes;
    if q < 1 then 1 else q
  }

  /** The blocks are enough, and one fewer would not be. */
  lemma NeededBounds(size: nat, blockBytes: nat)
    requires blockBytes > 0
    ensures var n := Needed(size, blockBytes);
            size <= n * blockBytes && (n == 1 || (n - 1) * blockBytes < size)
  {
    var x := size + blockBytes - 1;
    var q := x / blockBytes;
    assert x == q * blockBytes + x % blockBytes;
  }

  function BlobBlocks(b: Blob, blockBytes: nat): nat
    requires blockBytes > 0
  {
    Needed(|b.Flat()|, blockBytes)
  }

  function SpanOf(b: Block, blockBytes: nat): Span
    requires blockBytes > 0
  {
    Span(b.blockId, Needed(b.dataBytes + b.scaleBytes, blockBytes))
  }

  /** The block records that describe a blob placed at block `start` of its layer. */
  function PlacedAt(layer: nat, start: int, b: Blob, blockBytes: nat): Block {
    Block(layer, start, start * blockBytes, |b.data|, start * blockBytes + |b.data|, |b.ScaleBytes()|)
  }

  /** One block per layer, in layer order, each describing its blob. */
  ghost predicate EntryOk(h: Hash, e: PoolEntry, numLayers: nat, blockBytes: nat) {
    && e.hash == h
    && |e.blocks| == |e.blobs| <= numLayers
    && forall l :: 0 <= l < |e.blocks| ==> e.blocks[l] == PlacedAt(l, e.blocks[l].blockId, e.blobs[l], blockBytes)
  }

  /** A span belongs to an entry, to the allocation in progress, or was lost when an allocation raised. */
  datatype Owner = Entry(hash: Hash) | Pending | Lost(raise: nat)

  /** `owned` records exactly the spans that the entries and the pending allocation hold on layer l. */
  ghost predicate Records(owned: map<Owner, Span>, index: Index, pending: seq<Span>, l: nat, blockBytes: nat)
    requires blockBytes > 0
  {
    && (forall h :: Entry(h) in owned <==> h in index && l < |index[h].blocks|)
    && (forall h :: h in index && l < |index[h].blocks| ==> owned[Entry(h)] == SpanOf(index[h].blocks[l], blockBytes))
    && (Pending in owned <==> l < |pending|)
    && (Pending in owned ==> owned[Pending] == pending[l])
  }

  /** Every layer is partitioned between its free list, the entries, the pending allocation and lost spans. */
  ghost predicate PoolOk(free: seq<seq<int>>, owned: seq<map<Owner, Span>>, index: Index, pending: seq<Span>, n: nat,
                         blockBytes: nat)
  {
    && blockBytes > 0
    && |pending| <= |free| == |owned|
    && (forall h :: h in index ==> EntryOk(h, index[h], |free|, blockBytes))
    && (forall l :: 0 <= l < |free| ==> Records(owned[l], index, pending, l, blockBytes))
    && (forall l :: 0 <= l < |free| ==> Partition(free[l], owned[l], n))
  }

  // ----- Lost spans -----

  /** The lost spans of a layer. */
  ghost function Losses(owned: map<Owner, Span>): (r: map<Owner, Span>)
    ensures forall o :: o in r <==> o in owned && o.Lost?
    ensures forall o :: o in r ==> r[o] == owned[o]
  {
    map o | o in owned && o.Lost? :: owned[o]
  }

  /** The lost spans of every layer. */
  ghost function AllLosses(owned: seq<map<Owner, Span>>): (r: seq<map<Owner, Span>>)
    ensures |r| == |owned| && forall l :: 0 <= l < |r| ==> r[l] == Losses(owned[l])
  {
    seq(|owned|, l requires 0 <= l < |owned| => Losses(owned[l]))
  }

  /** The spans of the indexed entries on a layer. */
  ghost function LiveSpans(index: Index, l: nat, blockBytes: nat): (r: map<Hash, Span>)
    requires blockBytes > 0
    ensures forall h :: h in r <==> h in index && l < |index[h].blocks|
    ensures forall h :: h in r ==> r[h] == SpanOf(index[h].blocks[l], blockBytes)
  {
    map h | h in index && l < |index[h].blocks| :: SpanOf(index[h].blocks[l], blockBytes)
  }

  /** Between allocations, free list and live spans partition a layer if and only if nothing was lost on it. */
  lemma PartitionIff(free: seq<seq<int>>, owned: seq<map<Owner, Span>>, index: Index, n: nat, blockBytes: nat, l: nat)
    requires PoolOk(free, owned, index, [], n, blockBytes) && l < |free|
    ensures Partition(free[l], LiveSpans(index, l, blockBytes), n) <==> Losses(owned[l]) == map[]
  {
    assert Records(owned[l], index, [], l, blockBytes) && Partition(free[l], owned[l], n);
    if Losses(owned[l]) == map[] {
      LiveAlone(free[l], owned[l], index, n, blockBytes, l);
    } else {
      LostIsMissing(free[l], owned[l], index, n, blockBytes, l);
    }
  }

  lemma LiveAlone(free: seq<int>, owned: map<Owner, Span>, index: Index, n: nat, blockBytes: nat, l: nat)
    requires blockBytes > 0 && Records(owned, index, [], l, blockBytes) && Partition(free, owned, n)
    requires Losses(owned) == map[]
    ensures Partition(free, LiveSpans(index, l, blockBytes), n)
  {
    var live := LiveSpans(index, l, blockBytes);
    forall h | h in live ensures Entry(h) in owned && owned[Entry(h)] == live[h] {
    }
    forall x | 0 <= x < n && x !in free ensures exists h :: h in live && live[h].Covers(x) {
      var o :| o in owned && owned[o].Covers(x);
      assert o !in Losses(owned);
      assert o.Entry? && live[o.hash].Covers(x);
    }
    forall h, g | h in live && g in live && h != g ensures live[h].Apart(live[g]) {
      assert owned[Entry(h)].Apart(owned[Entry(g)]);
    }
  }

  lemma LostIsMissing(free: seq<int>, owned: map<Owner, Span>, index: Index, n: nat, blockBytes: nat, l: nat)
    requires blockBytes > 0 && Records(owned, index, [], l, blockBytes) && Partition(free, owned, n)
    requires Losses(owned) != map[]
    ensures !Partition(free, LiveSpans(index, l, blockBytes), n)
  {
    var live := LiveSpans(index, l, blockBytes);
    var o :| o in Losses(owned);
    var x := owned[o].start;
    assert owned[o].Covers(x) && x !in free && 0 <= x < n;
    forall h | h in live ensures !live[h].Covers(x) {
      assert Entry(h) in owned && owned[Entry(h)].Apart(owned[o]);
    }
  }

  /** The owners of a layer with its pending span given to another owner. */
  ghost function Given(owned: seq<map<Owner, Span>>, pending: seq<Span>, o: Owner): (r: seq<map<Owner, Span>>)
    requires |pending| <= |owned|
    ensures |r| == |owned|
    ensures forall l :: 0 <= l < |r| ==>
      r[l] == if l < |pending| then (owned[l] - {Pending})[o := pending[l]] else owned[l]
  {
    seq(|owned|, l requires 0 <= l < |owned| =>
      if l < |pending| then (owned[l] - {Pending})[o := pending[l]] else owned[l])
  }

  /** An allocation that raises leaves its spans with nobody: they are lost. */
  lemma LoseKeeps(free: seq<seq<int>>, owned: seq<map<Owner, Span>>, index: Index, pending: seq<Span>, n: nat,
                  blockBytes: nat, k: nat)
    requires PoolOk(free, owned, index, pending, n, blockBytes)
    requires forall l :: 0 <= l < |owned| ==> Lost(k) !in owned[l]
    ensures PoolOk(free, Given(owned, pending, Lost(k)), index, [], n, blockBytes)
  {
    var owned' := Given(owned, pending, Lost(k));
    forall l | 0 <= l < |free|
      ensures Partition(free[l], owned'[l], n)
      ensures Records(owned'[l], index, [], l, blockBytes)
    {
      assert Records(owned[l], index, pending, l, blockBytes);
      if l < |pending| {
        RenameKeeps(free[l], owned[l], n, Pending, Lost(k));
      }
    }
  }

  // Entries and reservations come and go; what is lost stays.

  lemma LossesWithout(owned: seq<map<Owner, Span>>, o: Owner)
    requires !o.Lost?
    ensures AllLosses(Without(owned, o)) == AllLosses(owned)
  {
    forall l | 0 <= l < |owned| ensures Losses(owned[l] - {o}) == Losses(owned[l]) {
    }
  }

  lemma LossesReserve(owned: seq<map<Owner, Span>>, at: nat, span: Span)
    requires at < |owned|
    ensures AllLosses(owned[at := owned[at][Pending := span]]) == AllLosses(owned)
  {
    assert Losses(owned[at][Pending := span]) == Losses(owned[at]);
  }

  lemma LossesAdopt(owned: seq<map<Owner, Span>>, pending: seq<Span>, h: Hash)
    requires |pending| <= |owned|
    ensures AllLosses(Given(owned, pending, Entry(h))) == AllLosses(owned)
  {
    forall l | 0 <= l < |pending|
      ensures Losses((owned[l] - {Pending})[Entry(h) := pending[l]]) == Losses(owned[l])
    {
    }
  }

  lemma LossesReclaimed(owned: seq<map<Owner, Span>>, at: nat, spans: map<Owner, Span>)
    requires at < |owned| && forall o :: o in spans ==> !o.Lost?
    ensures AllLosses(owned[at := spans]) == AllLosses(owned)[at := map[]]
  {
    assert Losses(spans) == map[];
  }

  /** A raising allocation loses one more span on every layer it reached. */
  lemma LossesGrow(owned: seq<map<Owner, Span>>, pending: seq<Span>, k: nat, l: nat)
    requires |pending| <= |owned| && l < |owned|
    ensures Losses(Given(owned, pending, Lost(k))[l]) ==
      if l < |pending| then Losses(owned[l])[Lost(k) := pending[l]] else Losses(owned[l])
  {
  }

  /** A span of k blocks at s avoids everything lost. */
  ghost predicate Avoids(losses: map<Owner, Span>, s: int, k: int, n: nat) {
    0 <= s && s + k <= n && forall o :: o in losses ==> losses[o].Apart(Span(s, k))
  }

  /** The longest span, up to k blocks, that avoids everything lost. */
  ghost function Longest(losses: map<Owner, Span>, k: nat, n: nat): (c: nat)
    ensures c <= k
  {
    if k == 0 || exists s :: Avoids(losses, s, k, n) then k else Longest(losses, k - 1, n)
  }

  /** How many consecutive blocks a layer of n has once every entry is gone. */
  ghost function Capacity(losses: map<Owner, Span>, n: nat): (c: nat)
    ensures c <= n
  {
    Longest(losses, n, n)
  }

  lemma {:induction false} LongestExactly(losses: map<Owner, Span>, k: nat, m: nat, n: nat)
    requires 1 <= k <= m
    ensures k <= Longest(losses, m, n) <==> exists j, s :: k <= j <= m && Avoids(losses, s, j, n)
  {
    if exists s :: Avoids(losses, s, m, n) {
    } else if k < m {
      LongestExactly(losses, k, m - 1, n);
    }
  }

  /** A span of k blocks can avoid what is lost exactly when k is within the capacity. */
  lemma CapacityExactly(losses: map<Owner, Span>, k: nat, n: nat)
    requires 1 <= k
    ensures k <= Capacity(losses, n) <==> exists s :: Avoids(losses, s, k, n)
  {
    if k <= n {
      LongestExactly(losses, k, n, n);
      forall j, s | k <= j <= n && Avoids(losses, s, j, n) ensures Avoids(losses, s, k, n) {
      }
    }
  }

  /** With nothing lost it is the whole layer. */
  lemma CapacityOfNothing(losses: map<Owner, Span>, n: nat)
    requires losses == map[]
    ensures Capacity(losses, n) == n
  {
    assert Avoids(losses, 0, n, n);
  }

  /** Free blocks are never lost ones. */
  lemma RoomAvoids(free: seq<int>, owned: map<Owner, Span>, n: nat, s: int, k: nat)
    requires Partition(free, owned, n) && 1 <= k && BlockFree(free, s, k)
    ensures Avoids(Losses(owned), s, k, n) && k <= Capacity(Losses(owned), n)
  {
    var losses := Losses(owned);
    assert s in free && s + k - 1 in free;
    forall o | o in Losses(owned) ensures owned[o].Apart(Span(s, k)) {
      var t := owned[o];
      if !t.Apart(Span(s, k)) {
        var x := if t.start < s then s else t.start;
        assert t.Covers(x) && x in free;
      }
    }
    assert Avoids(losses, s, k, n);
    CapacityExactly(losses, k, n);
  }

  /** Without entries and reservations, every block that is not lost is free. */
  lemma EmptyLayer(free: seq<seq<int>>, owned: seq<map<Owner, Span>>, pending: seq<Span>, n: nat, blockBytes: nat,
                   l: nat)
    requires PoolOk(free, owned, map[], pending, n, blockBytes) && |pending| <= l < |free|
    ensures forall x :: x in free[l] <==> 0 <= x < n && forall o :: o in Losses(owned[l]) ==> !owned[l][o].Covers(x)
  {
    assert Records(owned[l], map[], pending, l, blockBytes) && Partition(free[l], owned[l], n);
    forall o | o in owned[l] ensures o in Losses(owned[l]) {
      match o { case Entry(h) => case Pending => case Lost(k) => }
    }
  }

  /** So it has room for exactly as many blocks as its capacity. */
  lemma EmptyLayerFits(free: seq<int>, owned: map<Owner, Span>, n: nat, k: nat)
    requires 1 <= k && Partition(free, owned, n)
    requires forall x :: x in free <==> 0 <= x < n && forall o :: o in Losses(owned) ==> !owned[o].Covers(x)
    ensures (exists s :: BlockFree(free, s, k)) <==> k <= Capacity(Losses(owned), n)
  {
    var losses := Losses(owned);
    CapacityExactly(losses, k, n);
    forall s | BlockFree(free, s, k) ensures Avoids(losses, s, k, n) {
      RoomAvoids(free, owned, n, s, k);
    }
    forall s | Avoids(losses, s, k, n) ensures BlockFree(free, s, k) {
      forall x | s <= x < s + k ensures x in free {
        forall o | o in losses ensures !owned[o].Covers(x) {
          assert losses[o].Apart(Span(s, k));
        }
      }
    }
  }

  // ----- Releasing an entry -----

  /** The free lists after every block of an entry has been given back. */
  function Released(free: seq<seq<int>>, e: PoolEntry, blockBytes: nat): (r: seq<seq<int>>)
    requires blockBytes > 0
    ensures |r| == |free|
    ensures forall l :: 0 <= l < |free| ==> r[l] == GivenBack(free[l], e, l, blockBytes)
  {
    seq(|free|, l requires 0 <= l < |free| => GivenBack(free[l], e, l, blockBytes))
  }

  function GivenBack(free: seq<int>, e: PoolEntry, l: nat, blockBytes: nat): seq<int>
    requires blockBytes > 0
  {
    if l < |e.blocks| then
      var s := SpanOf(e.blocks[l], blockBytes);
      free + Range(s.start, s.start + s.len)
    else free
  }

  ghost function Without(owned: seq<map<Owner, Span>>, o: Owner): (r: seq<map<Owner, Span>>)
    ensures |r| == |owned| && forall l :: 0 <= l < |r| ==> r[l] == owned[l] - {o}
  {
    seq(|owned|, l requires 0 <= l < |owned| => owned[l] - {o})
  }

  lemma RecordsWithout(owned: map<Owner, Span>, index: Index, pending: seq<Span>, l: nat, blockBytes: nat, h: Hash)
    requires blockBytes > 0 && h in index && Records(owned, index, pending, l, blockBytes)
    ensures Records(owned - {Entry(h)}, index - {h}, pending, l, blockBytes)
  {
  }

  /** Dropping an entry and releasing its blocks keeps every layer partitioned. */
  lemma ReleaseKeeps(free: seq<seq<int>>, owned: seq<map<Owner, Span>>, index: Index, pending: seq<Span>, n: nat,
                     blockBytes: nat, h: Hash)
    requires PoolOk(free, owned, index, pending, n, blockBytes) && h in index
    ensures PoolOk(Released(free, index[h], blockBytes), Without(owned, Entry(h)), index - {h}, pending, n, blockBytes)
  {
    forall l | 0 <= l < |free|
      ensures Partition(GivenBack(free[l], index[h], l, blockBytes), owned[l] - {Entry(h)}, n)
      ensures Records(owned[l] - {Entry(h)}, index - {h}, pending, l, blockBytes)
    {
      RecordsWithout(owned[l], index, pending, l, blockBytes, h);
      if l < |index[h].blocks| {
        GiveBackKeeps(free[l], owned[l], n, Entry(h));
      } else {
        assert owned[l] - {Entry(h)} == owned[l];
      }
    }
  }

  /** Refreshing an entry's statistics changes no block. */
  lemma TouchKeeps(free: seq<seq<int>>, owned: seq<map<Owner, Span>>, index: Index, n: nat, blockBytes: nat, h: Hash,
                   e: PoolEntry)
    requires PoolOk(free, owned, index, [], n, blockBytes) && h in index
    requires e.hash == h && e.blocks == index[h].blocks && e.blobs == index[h].blobs
    ensures PoolOk(free, owned, index[h := e], [], n, blockBytes)
  {
    forall l | 0 <= l < |free|
      ensures Records(owned[l], index[h := e], [], l, blockBytes)
    {
      assert Records(owned[l], index, [], l, blockBytes);
    }
  }

  // ----- The allocation in progress -----

  /** Taking a span on the next layer adds it to the pending allocation. */
  lemma ReserveKeeps(free: seq<seq<int>>, owned: seq<map<Owner, Span>>, index: Index, pending: seq<Span>, n: nat,
                     blockBytes: nat, taken: seq<int>, span: Span)
    requires PoolOk(free, owned, index, pending, n, blockBytes) && |pending| < |free|
    requires 1 <= span.len && forall x :: span.Covers(x) ==> x in free[|pending|]
    requires Distinct(taken) && forall x :: x in taken <==> x in free[|pending|] && !span.Covers(x)
    ensures var at := |pending|;
            PoolOk(free[at := taken], owned[at := owned[at][Pending := span]], index, pending + [span], n, blockBytes)
  {
    var at := |pending|;
    TakeKeeps(free[at], taken, owned[at], n, Pending, span);
    var owned' := owned[at := owned[at][Pending := span]];
    forall l | 0 <= l < |free|
      ensures Records(owned'[l], index, pending + [span], l, blockBytes)
    {
      assert Records(owned[l], index, pending, l, blockBytes);
    }
  }

  function ReturnedTo(free: seq<int>, pending: seq<Span>, l: nat): seq<int> {
    if l < |pending| then free + Range(pending[l].start, pending[l].start + pending[l].len) else free
  }

  /** The free lists after every pending span has been given back. */
  function Returned(free: seq<seq<int>>, pending: seq<Span>): (r: seq<seq<int>>)
    ensures |r| == |free| && forall l :: 0 <= l < |r| ==> r[l] == ReturnedTo(free[l], pending, l)
  {
    seq(|free|, l requires 0 <= l < |free| => ReturnedTo(free[l], pending, l))
  }

  /** Rolling an allocation back keeps every layer partitioned. */
  lemma CancelKeeps(free: seq<seq<int>>, owned: seq<map<Owner, Span>>, index: Index, pending: seq<Span>, n: nat,
                    blockBytes: nat)
    requires PoolOk(free, owned, index, pending, n, blockBytes)
    ensures PoolOk(Returned(free, pending), Without(owned, Pending), index, [], n, blockBytes)
  {
    forall l | 0 <= l < |free|
      ensures Partition(ReturnedTo(free[l], pending, l), owned[l] - {Pending}, n)
      ensures Records(owned[l] - {Pending}, index, [], l, blockBytes)
    {
      assert Records(owned[l], index, pending, l, blockBytes);
      if l < |pending| {
        GiveBackKeeps(free[l], owned[l], n, Pending);
      } else {
        assert owned[l] - {Pending} == owned[l];
      }
    }
  }

  /** A new entry takes over the pending spans. */
  lemma AdoptKeeps(free: seq<seq<int>>, owned: seq<map<Owner, Span>>, index: Index, pending: seq<Span>, n: nat,
                   blockBytes: nat, e: PoolEntry)
    requires PoolOk(free, owned, index, pending, n, blockBytes) && e.hash !in index
    requires EntryOk(e.hash, e, |free|, blockBytes) && |e.blocks| == |pending|
    requires forall l :: 0 <= l < |pending| ==> pending[l] == SpanOf(e.blocks[l], blockBytes)
    ensures PoolOk(free, Given(owned, pending, Entry(e.hash)), index[e.hash := e], [], n, blockBytes)
  {
    var owned' := Given(owned, pending, Entry(e.hash));
    forall l | 0 <= l < |free|
      ensures Partition(free[l], owned'[l], n)
      ensures Records(owned'[l], index[e.hash := e], [], l, blockBytes)
    {
      assert Records(owned[l], index, pending, l, blockBytes);
      if l < |pending| {
        RenameKeeps(free[l], owned[l], n, Pending, Entry(e.hash));
      }
    }
  }

  // ----- Bytes -----

  /** The bytes at `off` overwritten by `data`. */
  function Overwrite(slab: seq<Byte>, off: nat, data: seq<Byte>): (r: seq<Byte>)
    requires off + |data| <= |slab|
    ensures |r| == |slab| && r[off..off + |data|] == data
    ensures forall i :: 0 <= i < |slab| && !(off <= i < off + |data|) ==> r[i] == slab[i]
  {
    slab[..off] + data + slab[off + |data|..]
  }

  /** A slab holds a blob at the place a block records. */
  ghost predicate HoldsBlob(slab: seq<Byte>, b: Block, blob: Blob) {
    && 0 <= b.dataOffset && b.dataOffset + |blob.Flat()| <= |slab|
    && slab[b.dataOffset..b.dataOffset + |blob.Flat()|] == blob.Flat()
  }

  /** The slabs hold the blobs of every indexed entry at the recorded offsets. */
  ghost predicate StoredIn(slabs: seq<seq<Byte>>, index: Index) {
    forall h, l :: h in index && 0 <= l < |index[h].blocks| && l < |index[h].blobs| && l < |slabs| ==>
      HoldsBlob(slabs[l], index[h].blocks[l], index[h].blobs[l])
  }

  /** Spans that are apart as blocks are apart as bytes. */
  lemma ApartAsBytes(s: Span, t: Span, blockBytes: nat)
    requires s.Apart(t)
    ensures || (s.start + s.len) * blockBytes <= t.start * blockBytes
            || (t.start + t.len) * blockBytes <= s.start * blockBytes
  {
    if s.start + s.len <= t.start {
      MulMonotone(s.start + s.len, t.start, blockBytes);
    } else {
      MulMonotone(t.start + t.len, s.start, blockBytes);
    }
  }

  lemma MulMonotone(a: int, b: int, k: nat)
    requires a <= b
    ensures a * k <= b * k
  {
  }

  /** A blob placed at the start of its span ends inside it. */
  lemma BlobInSpan(start: int, blob: Blob, blockBytes: nat)
    requires blockBytes > 0
    ensures start * blockBytes + |blob.Flat()| <= (start + BlobBlocks(blob, blockBytes)) * blockBytes
  {
    var k := BlobBlocks(blob, blockBytes);
    NeededBounds(|blob.Flat()|, blockBytes);
    assert (start + k) * blockBytes == start * blockBytes + k * blockBytes;
  }

  /** A span inside the slab's blocks lies inside the slab's bytes. */
  lemma SpanInSlab(s: Span, n: nat, blockBytes: nat, bytes: nat)
    requires blockBytes > 0 && n == bytes / blockBytes && 0 <= s.start && s.start + s.len <= n
    ensures 0 <= s.start * blockBytes && (s.start + s.len) * blockBytes <= bytes
  {
    MulMonotone(0, s.start, blockBytes);
    MulMonotone(s.start + s.len, n, blockBytes);
    assert bytes == n * blockBytes + bytes % blockBytes;
  }

  lemma OverwriteElsewhere(slab: seq<Byte>, off: nat, data: seq<Byte>, from: nat, until: nat)
    requires off + |data| <= |slab| && from <= until <= |slab|
    requires until <= off || off + |data| <= from
    ensures Overwrite(slab, off, data)[from..until] == slab[from..until]
  {
  }

  /** Writing a blob inside one span leaves a blob inside another span alone. */
  lemma WriteApart(slab: seq<Byte>, b: Block, blob: Blob, blockBytes: nat, span: Span, data: seq<Byte>)
    requires blockBytes > 0 && HoldsBlob(slab, b, blob) && b == PlacedAt(b.layerId, b.blockId, blob, blockBytes)
    requires SpanOf(b, blockBytes).Apart(span)
    requires 0 <= span.start * blockBytes && span.start * blockBytes + |data| <= (span.start + span.len) * blockBytes
    requires span.start * blockBytes + |data| <= |slab|
    ensures HoldsBlob(Overwrite(slab, span.start * blockBytes, data), b, blob)
  {
    ApartAsBytes(SpanOf(b, blockBytes), span, blockBytes);
    BlobInSpan(b.blockId, blob, blockBytes);
    OverwriteElsewhere(slab, span.start * blockBytes, data, b.dataOffset, b.dataOffset + |blob.Flat()|);
  }

  /** Two adjacent writes are one. */
  lemma OverwriteTwice(slab: seq<Byte>, off: nat, a: seq<Byte>, b: seq<Byte>)
    requires off + |a| + |b| <= |slab|
    ensures Overwrite(Overwrite(slab, off, a), off + |a|, b) == Overwrite(slab, off, a + b)
  {
  }

  /** An indexed blob survives the write of the pending allocation's blob on the same layer. */
  lemma SurvivesWrite(free: seq<seq<int>>, owned: seq<map<Owner, Span>>, index: Index, pending: seq<Span>, n: nat,
                      blockBytes: nat, h: Hash, l: nat, slab: seq<Byte>, blob: Blob)
    requires PoolOk(free, owned, index, pending, n, blockBytes) && h in index
    requires l < |index[h].blocks| && l < |pending| && n == |slab| / blockBytes
    requires pending[l].len == BlobBlocks(blob, blockBytes)
    requires HoldsBlob(slab, index[h].blocks[l], index[h].blobs[l])
    ensures 0 <= pending[l].start * blockBytes && pending[l].start * blockBytes + |blob.Flat()| <= |slab|
    ensures HoldsBlob(Overwrite(slab, pending[l].start * blockBytes, blob.Flat()), index[h].blocks[l],
                      index[h].blobs[l])
  {
    assert Records(owned[l], index, pending, l, blockBytes) && Partition(free[l], owned[l], n);
    SpanInSlab(pending[l], n, blockBytes, |slab|);
    BlobInSpan(pending[l].start, blob, blockBytes);
    assert owned[l][Entry(h)].Apart(owned[l][Pending]);
    WriteApart(slab, index[h].blocks[l], index[h].blobs[l], blockBytes, pending[l], blob.Flat());
  }
}
