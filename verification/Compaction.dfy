/**
 Slab compaction on values: sliding the live spans of a layer to the front, in the order of
 their positions, keeps every blob and leaves the free blocks as one tail.
 */
module Compaction {
  import opened Wrappers
  import opened SlabLayer
  import opened PoolModel

  // ----- Spans that tile the front of a layer -----

  /** Spans of the given lengths, the first at block 0 and each starting where the one before ends. */
  ghost predicate Tiles(lens: seq<int>, at: seq<int>, next: int) {
    && |at| == |lens|
    && (forall k :: 0 <= k < |lens| ==> 1 <= lens[k])
    && (if |at| == 0 then next == 0 else at[0] == 0 && next == at[|at| - 1] + lens[|at| - 1])
    && forall k :: 0 < k < |at| ==> at[k] == at[k - 1] + lens[k - 1]
  }

  /** A tiling runs in order and ends before `next`. */
  lemma {:induction false} TilesInOrder(lens: seq<int>, at: seq<int>, next: int, j: nat, k: nat)
    requires Tiles(lens, at, next) && j <= k < |at|
    ensures 0 <= at[j] <= at[k] && (j < k ==> at[j] + lens[j] <= at[k]) && at[k] + lens[k] <= next
  {
    TilesFrom(lens, at, next, 0, j);
    TilesFrom(lens, at, next, j, k);
    TilesFrom(lens, at, next, k, |at| - 1);
  }

  lemma {:induction false} TilesFrom(lens: seq<int>, at: seq<int>, next: int, j: nat, k: nat)
    requires Tiles(lens, at, next) && j <= k < |at|
    ensures at[j] <= at[k] && (j < k ==> at[j] + lens[j] <= at[k])
    decreases k
  {
    if j < k {
      TilesFrom(lens, at, next, j, k - 1);
    }
  }

  /** Every block below the end of the tiling lies in one of its spans. */
  lemma {:induction false} TilesCover(lens: seq<int>, at: seq<int>, next: int, x: int) returns (k: nat)
    requires Tiles(lens, at, next) && 0 <= x < next
    ensures k < |at| && at[k] <= x < at[k] + lens[k]
    decreases |at|
  {
    k := |at| - 1;
    if x < at[k] {
      k := TilesCover(lens[..k], at[..k], at[k], x);
    }
  }

  /** Appending a span at `next` extends a tiling. */
  lemma TilesAppend(lens: seq<int>, at: seq<int>, next: int, len: int)
    requires Tiles(lens, at, next) && 1 <= len
    ensures Tiles(lens + [len], at + [next], next + len)
  {
  }

  /** Owners whose spans tile the front own spans that are apart and end before `next`. */
  lemma TilesApart<O(!new)>(spans: map<O, Span>, live: seq<O>, lens: seq<int>, at: seq<int>, next: int, o: O, o': O)
    requires Tiles(lens, at, next) && |live| == |at| && o in live && o' in live
    requires forall k :: 0 <= k < |live| ==> live[k] in spans && spans[live[k]] == Span(at[k], lens[k])
    ensures o in spans && 0 <= spans[o].start && 1 <= spans[o].len && spans[o].start + spans[o].len <= next
    ensures o' in spans && (o != o' ==> spans[o].Apart(spans[o']))
  {
    var j :| 0 <= j < |live| && live[j] == o;
    var k :| 0 <= k < |live| && live[k] == o';
    TilesInOrder(lens, at, next, j, j);
    if j < k {
      TilesInOrder(lens, at, next, j, k);
    } else {
      TilesInOrder(lens, at, next, k, j);
    }
  }

  /** Such owners leave the tail free: the layer is partitioned again. */
  lemma TilesPartition<O(!new)>(spans: map<O, Span>, live: seq<O>, lens: seq<int>, at: seq<int>, next: int, n: nat)
    requires Tiles(lens, at, next) && next <= n && |live| == |at|
    requires forall o :: o in spans ==> o in live
    requires forall k :: 0 <= k < |live| ==> live[k] in spans && spans[live[k]] == Span(at[k], lens[k])
    ensures Partition(Range(next, n), spans, n)
  {
    forall o, o' | o in spans && o' in spans
      ensures 0 <= spans[o].start && 1 <= spans[o].len && spans[o].start + spans[o].len <= next
      ensures o != o' ==> spans[o].Apart(spans[o'])
    {
      TilesApart(spans, live, lens, at, next, o, o');
    }
    forall x | 0 <= x < n && x !in Range(next, n)
      ensures exists o :: o in spans && spans[o].Covers(x)
    {
      var k := TilesCover(lens, at, next, x);
      assert spans[live[k]].Covers(x);
    }
  }

  // ----- Moving blobs -----

  /** Blob k lies at block at[k] of the slab. */
  ghost predicate Laid(slab: seq<Byte>, blobs: seq<Blob>, at: seq<int>, layer: nat, blockBytes: nat)
    requires blockBytes > 0
  {
    && |at| == |blobs|
    && forall k :: 0 <= k < |blobs| ==> HoldsBlob(slab, PlacedAt(layer, at[k], blobs[k], blockBytes), blobs[k])
  }

  /** The byte ranges of a span before and after a move lie inside the slab. */
  lemma MoveBounds(bytes: nat, n: nat, blockBytes: nat, from: int, to: int, len: nat)
    requires blockBytes > 0 && n == bytes / blockBytes
    requires 0 <= from && from + len <= n && 0 <= to && to + len <= n
    ensures 0 <= from * blockBytes && from * blockBytes + len * blockBytes <= bytes
    ensures 0 <= to * blockBytes && to * blockBytes + len * blockBytes <= bytes
    ensures (to + len) * blockBytes == to * blockBytes + len * blockBytes
    ensures 0 <= len * blockBytes
  {
    SpanInSlab(Span(from, len), n, blockBytes, bytes);
    SpanInSlab(Span(to, len), n, blockBytes, bytes);
    assert (from + len) * blockBytes == from * blockBytes + len * blockBytes;
    assert (to + len) * blockBytes == to * blockBytes + len * blockBytes;
    MulMonotone(0, len, blockBytes);
  }

  /** The moved blob: `size` bytes copied from byte `from` to byte `to` carry it along. */
  lemma MovedBlob(slab: seq<Byte>, blob: Blob, layer: nat, blockBytes: nat, fromBlock: int, toBlock: int, from: nat,
                  to: nat, size: nat)
    requires blockBytes > 0 && from + size <= |slab| && to + size <= |slab|
    requires from == fromBlock * blockBytes && to == toBlock * blockBytes && |blob.Flat()| <= size
    requires HoldsBlob(slab, PlacedAt(layer, fromBlock, blob, blockBytes), blob)
    ensures HoldsBlob(Overwrite(slab, to, slab[from..from + size]), PlacedAt(layer, toBlock, blob, blockBytes), blob)
  {
    var slab' := Overwrite(slab, to, slab[from..from + size]);
    var m := |blob.Flat()|;
    assert slab'[to..to + m] == slab'[to..to + size][..m] == slab[from..from + size][..m] == slab[from..from + m];
  }

  /** Copying a whole span to a place that overlaps no other live span keeps every blob. */
  lemma MoveKeeps(slab: seq<Byte>, blobs: seq<Blob>, at: seq<int>, layer: nat, blockBytes: nat, i: nat, toBlock: int,
                  from: nat, to: nat, size: nat)
    requires blockBytes > 0 && Laid(slab, blobs, at, layer, blockBytes) && i < |blobs|
    requires from == at[i] * blockBytes && to == toBlock * blockBytes
    requires size == BlobBlocks(blobs[i], blockBytes) * blockBytes
    requires from + size <= |slab| && to + size <= |slab|
    requires to + size == (toBlock + BlobBlocks(blobs[i], blockBytes)) * blockBytes
    requires forall k :: 0 <= k < |blobs| && k != i ==>
               Span(at[k], BlobBlocks(blobs[k], blockBytes)).Apart(Span(toBlock, BlobBlocks(blobs[i], blockBytes)))
    ensures Laid(Overwrite(slab, to, slab[from..from + size]), blobs, at[i := toBlock], layer, blockBytes)
  {
    var data := slab[from..from + size];
    var slab' := Overwrite(slab, to, data);
    forall k | 0 <= k < |blobs|
      ensures HoldsBlob(slab', PlacedAt(layer, at[i := toBlock][k], blobs[k], blockBytes), blobs[k])
    {
      if k == i {
        NeededBounds(|blobs[i].Flat()|, blockBytes);
        MovedBlob(slab, blobs[i], layer, blockBytes, at[i], toBlock, from, to, size);
      } else {
        WriteApart(slab, PlacedAt(layer, at[k], blobs[k], blockBytes), blobs[k], blockBytes,
                   Span(toBlock, BlobBlocks(blobs[i], blockBytes)), data);
      }
    }
  }

  // ----- The order of moves -----

  /** Inserts h behind every element of an ordered list that is not after it. */
  function InsertBy(s: seq<Hash>, h: Hash, pos: map<Hash, int>): (r: seq<Hash>)
    requires h in pos && forall g :: g in s ==> g in pos
    ensures multiset(r) == multiset(s) + multiset{h}
    ensures forall g :: g in r <==> g == h || g in s
  {
    if s == [] || pos[s[|s| - 1]] <= pos[h] then
      assert forall g :: g in s + [h] <==> g == h || g in s;
      s + [h]
    else
      var front, last := s[..|s| - 1], s[|s| - 1];
      assert s == front + [last];
      var r := InsertBy(front, h, pos);
      assert forall g :: g in r + [last] <==> g in r || g == last;
      r + [last]
  }

  lemma {:induction false} InsertOrdered(s: seq<Hash>, h: Hash, pos: map<Hash, int>)
    requires h in pos && (forall g :: g in s ==> g in pos) && OrderedBy(s, pos)
    ensures OrderedBy(InsertBy(s, h, pos), pos)
  {
    if s != [] && pos[s[|s| - 1]] > pos[h] {
      var front, last := s[..|s| - 1], s[|s| - 1];
      InsertOrdered(front, h, pos);
      var r := InsertBy(front, h, pos);
      forall k | 0 <= k < |r| ensures pos[r[k]] <= pos[last] {
        assert r[k] in r;
      }
    }
  }

  predicate OrderedBy(s: seq<Hash>, pos: map<Hash, int>)
    requires forall g :: g in s ==> g in pos
  {
    forall j, k :: 0 <= j < k < |s| ==> pos[s[j]] <= pos[s[k]]
  }

  /** live_blocks.sort by block number. */
  function SortBy(s: seq<Hash>, pos: map<Hash, int>): (r: seq<Hash>)
    requires forall g :: g in s ==> g in pos
    ensures multiset(r) == multiset(s)
    ensures forall g :: g in r <==> g in s
  {
    if s == [] then []
    else
      var front, last := s[..|s| - 1], s[|s| - 1];
      assert s == front + [last];
      InsertBy(SortBy(front, pos), last, pos)
  }

  /** The sort yields an ordered permutation. */
  lemma {:induction false} SortOrders(s: seq<Hash>, pos: map<Hash, int>)
    requires forall g :: g in s ==> g in pos
    ensures OrderedBy(SortBy(s, pos), pos)
    ensures Distinct(s) ==> Distinct(SortBy(s, pos))
  {
    if s != [] {
      SortOrders(s[..|s| - 1], pos);
      InsertOrdered(SortBy(s[..|s| - 1], pos), s[|s| - 1], pos);
    }
    if Distinct(s) {
      DistinctIsOnce(s, SortBy(s, pos));
    }
  }

  /** A permutation of a list without duplicates has none. */
  lemma DistinctIsOnce(s: seq<Hash>, r: seq<Hash>)
    requires Distinct(s) && multiset(r) == multiset(s)
    ensures Distinct(r)
  {
    forall i, j | 0 <= i < j < |r| ensures r[i] != r[j] {
      if r[i] == r[j] {
        CountTwice(r, i, j);
        CountOnce(s, r[i]);
      }
    }
  }

  lemma CountTwice(r: seq<Hash>, i: nat, j: nat)
    requires i < j < |r| && r[i] == r[j]
    ensures multiset(r)[r[i]] >= 2
  {
    assert r == r[..i] + [r[i]] + r[i + 1..j] + [r[j]] + r[j + 1..];
  }

  lemma {:induction false} CountOnce(s: seq<Hash>, h: Hash)
    requires Distinct(s)
    ensures multiset(s)[h] <= 1
  {
    if s != [] {
      var front, last := s[..|s| - 1], s[|s| - 1];
      CountOnce(front, h);
      assert s == front + [last] && last !in front;
    }
  }

  /** Where the live entries of a layer lie, in the given order. */
  ghost function Positions(index: Index, live: seq<Hash>, layer: nat): (at: seq<int>)
    requires forall h :: h in live ==> h in index && layer < |index[h].blocks|
    ensures |at| == |live| && forall k :: 0 <= k < |at| ==> at[k] == index[live[k]].blocks[layer].blockId
  {
    seq(|live|, k requires 0 <= k < |live| => index[live[k]].blocks[layer].blockId)
  }

  ghost function LiveBlobs(index: Index, live: seq<Hash>, layer: nat): (r: seq<Blob>)
    requires forall h :: h in live ==> h in index && layer < |index[h].blobs|
    ensures |r| == |live| && forall k :: 0 <= k < |r| ==> r[k] == index[live[k]].blobs[layer]
  {
    seq(|live|, k requires 0 <= k < |live| => index[live[k]].blobs[layer])
  }

  ghost function Lengths(blobs: seq<Blob>, blockBytes: nat): (r: seq<int>)
    requires blockBytes > 0
    ensures |r| == |blobs| && forall k :: 0 <= k < |r| ==> r[k] == BlobBlocks(blobs[k], blockBytes) >= 1
  {
    seq(|blobs|, k requires 0 <= k < |blobs| => BlobBlocks(blobs[k], blockBytes))
  }

  /** `blobs` are the live entries' blobs on the layer and `lens` the blocks they take. */
  ghost predicate Describes(blobs: seq<Blob>, lens: seq<int>, index: Index, live: seq<Hash>, layer: nat,
                            blockBytes: nat)
    requires blockBytes > 0 && LiveOn(index, live, layer)
  {
    && |blobs| == |live| == |lens|
    && (forall k :: 0 <= k < |live| ==> blobs[k] == index[live[k]].blobs[layer])
    && (forall k :: 0 <= k < |lens| ==> lens[k] == BlobBlocks(blobs[k], blockBytes))
  }

  /** An entry with its block on one layer moved. */
  function Relocate(e: PoolEntry, layer: nat, start: int, blockBytes: nat): PoolEntry
    requires layer < |e.blocks| && layer < |e.blobs|
  {
    e.(blocks := e.blocks[layer := PlacedAt(layer, start, e.blobs[layer], blockBytes)])
  }

  /** The index after the live entries of a layer have moved to `at`. */
  ghost predicate RelocatedTo(index: Index, before: Index, live: seq<Hash>, at: seq<int>, layer: nat, blockBytes: nat)
    requires |at| == |live| && LiveOn(before, live, layer)
  {
    && index.Keys == before.Keys
    && (forall h :: h in before && h !in live ==> index[h] == before[h])
    && (forall k :: 0 <= k < |live| ==> index[live[k]] == Relocate(before[live[k]], layer, at[k], blockBytes))
  }

  /** Everything a layer's live entries are known to satisfy before compaction. */
  ghost predicate LiveOn(index: Index, live: seq<Hash>, layer: nat) {
    && Distinct(live)
    && (forall h :: h in live <==> h in index && layer < |index[h].blocks|)
    && (forall h :: h in live ==> layer < |index[h].blobs|)
  }

  /** Sorted by position, live spans do not overlap and stay inside the layer. */
  lemma LiveInOrder(free: seq<seq<int>>, owned: seq<map<Owner, Span>>, index: Index, n: nat, blockBytes: nat,
                    live: seq<Hash>, layer: nat, pos: map<Hash, int>)
    requires PoolOk(free, owned, index, [], n, blockBytes) && layer < |free| && LiveOn(index, live, layer)
    requires forall h :: h in live ==> h in pos && pos[h] == index[h].blocks[layer].blockId
    requires OrderedBy(live, pos)
    ensures var at, lens := Positions(index, live, layer), Lengths(LiveBlobs(index, live, layer), blockBytes);
            && (forall k :: 0 <= k < |live| ==> 0 <= at[k] && at[k] + lens[k] <= n)
            && (forall j, k :: 0 <= j < k < |live| ==> at[j] + lens[j] <= at[k])
  {
    assert Records(owned[layer], index, [], layer, blockBytes) && Partition(free[layer], owned[layer], n);
    var at, lens := Positions(index, live, layer), Lengths(LiveBlobs(index, live, layer), blockBytes);
    forall k | 0 <= k < |live|
      ensures Entry(live[k]) in owned[layer] && owned[layer][Entry(live[k])] == Span(at[k], lens[k])
    {
      assert live[k] in live;
      assert EntryOk(live[k], index[live[k]], |free|, blockBytes);
    }
    forall j, k | 0 <= j < k < |live|
      ensures at[j] + lens[j] <= at[k]
    {
      assert owned[layer][Entry(live[j])].Apart(owned[layer][Entry(live[k])]);
    }
  }

  /** Updating one live entry's record moves it, and only it. */
  lemma RelocateOne(index: Index, before: Index, live: seq<Hash>, at: seq<int>, layer: nat, blockBytes: nat, i: nat,
                    to: int)
    requires |at| == |live| && LiveOn(before, live, layer) && RelocatedTo(index, before, live, at, layer, blockBytes)
    requires i < |live|
    ensures var h := live[i];
            && h in index && layer < |index[h].blocks| && layer < |index[h].blobs|
            && RelocatedTo(index[h := Relocate(index[h], layer, to, blockBytes)], before, live, at[i := to], layer,
                           blockBytes)
  {
    assert live[i] in live;
    var e := before[live[i]];
    assert Relocate(Relocate(e, layer, at[i], blockBytes), layer, to, blockBytes) == Relocate(e, layer, to, blockBytes);
  }

  /** Before any move every entry is where its record says. */
  lemma RelocatedNowhere(index: Index, live: seq<Hash>, at: seq<int>, layer: nat, numLayers: nat, blockBytes: nat)
    requires LiveOn(index, live, layer) && forall h :: h in live ==> EntryOk(h, index[h], numLayers, blockBytes)
    requires |at| == |live| && forall k :: 0 <= k < |live| ==> at[k] == index[live[k]].blocks[layer].blockId
    ensures RelocatedTo(index, index, live, at, layer, blockBytes)
  {
    forall k | 0 <= k < |live| ensures index[live[k]] == Relocate(index[live[k]], layer, at[k], blockBytes) {
      assert live[k] in live;
      assert EntryOk(live[k], index[live[k]], numLayers, blockBytes);
    }
  }

  /** The record of the i-th live entry, and the blocks it takes. */
  lemma LiveBlock(index: Index, before: Index, live: seq<Hash>, at: seq<int>, layer: nat, numLayers: nat,
                  blockBytes: nat, blobs: seq<Blob>, lens: seq<int>, i: nat)
    requires blockBytes > 0 && |at| == |live| && LiveOn(before, live, layer) && i < |live|
    requires RelocatedTo(index, before, live, at, layer, blockBytes)
    requires EntryOk(live[i], before[live[i]], numLayers, blockBytes)
    requires Describes(blobs, lens, before, live, layer, blockBytes)
    ensures live[i] in index && live[i] in before && layer < |index[live[i]].blocks| && layer < |before[live[i]].blobs|
    ensures index[live[i]].blocks[layer].blockId == at[i]
    ensures var b := index[live[i]].blocks[layer];
            Needed(b.dataBytes + b.scaleBytes, blockBytes) == lens[i]
  {
    assert live[i] in live;
  }

  // ----- The progress of a slide -----

  /** Spans of the given lengths lie in order inside n blocks. */
  ghost predicate InOrder(lens: seq<int>, at: seq<int>, n: nat) {
    && |lens| == |at|
    && (forall k :: 0 <= k < |at| ==> 1 <= lens[k] && 0 <= at[k] && at[k] + lens[k] <= n)
    && (forall j, k :: 0 <= j < k < |at| ==> at[j] + lens[j] <= at[k])
  }

  /** Spans 0..i have been slid to the front, up to `next`; the others are where they were. */
  ghost predicate SlidUpTo(lens: seq<int>, at0: seq<int>, at: seq<int>, i: nat, next: int, n: nat) {
    && InOrder(lens, at0, n)
    && i <= |at| == |at0|
    && (forall k :: i <= k < |at| ==> at[k] == at0[k])
    && Tiles(lens[..i], at[..i], next)
    && (i < |at| ==> next <= at0[i])
    && next <= n
  }

  lemma SlideStart(lens: seq<int>, at0: seq<int>, n: nat)
    requires InOrder(lens, at0, n)
    ensures SlidUpTo(lens, at0, at0, 0, 0, n)
  {
    assert lens[..0] == [] && at0[..0] == [];
  }

  /** The next slide goes to the left or nowhere, and overlaps no other span. */
  lemma SlideIsApart(lens: seq<int>, at0: seq<int>, at: seq<int>, i: nat, next: int, n: nat)
    requires SlidUpTo(lens, at0, at, i, next, n) && i < |at|
    ensures 0 <= next <= at[i] && at[i] + lens[i] <= n
    ensures forall k :: 0 <= k < |at| && k != i ==> Span(at[k], lens[k]).Apart(Span(next, lens[i]))
  {
    if i > 0 {
      TilesInOrder(lens[..i], at[..i], next, 0, i - 1);
    }
    forall k | 0 <= k < |at| && k != i
      ensures Span(at[k], lens[k]).Apart(Span(next, lens[i]))
    {
      if k < i {
        TilesInOrder(lens[..i], at[..i], next, k, k);
        assert lens[..i][k] == lens[k] && at[..i][k] == at[k];
      }
    }
  }

  lemma SlideDone(lens: seq<int>, at0: seq<int>, at: seq<int>, next: int, n: nat)
    requires SlidUpTo(lens, at0, at, |at|, next, n)
    ensures Tiles(lens, at, next) && 0 <= next <= n
  {
    assert lens[..|at|] == lens && at[..|at|] == at;
    if at != [] {
      TilesInOrder(lens, at, next, 0, |at| - 1);
    }
  }

  lemma SlideAdvances(lens: seq<int>, at0: seq<int>, at: seq<int>, i: nat, next: int, n: nat)
    requires SlidUpTo(lens, at0, at, i, next, n) && i < |at|
    ensures SlidUpTo(lens, at0, at[i := next], i + 1, next + lens[i], n)
  {
    TilesAppend(lens[..i], at[..i], next, lens[i]);
    assert lens[..i + 1] == lens[..i] + [lens[i]];
    assert at[i := next][..i + 1] == at[..i] + [next];
  }

  // ----- A whole layer -----

  /** A slab, the index and the next block to fill, part way through the compaction of a layer. */
  datatype Layout = Layout(slab: seq<Byte>, index: Index, next: int)

  /** `size` bytes copied inside a slab, all read before any is written. */
  function Copied(slab: seq<Byte>, from: int, to: int, size: int): (r: seq<Byte>)
    ensures |r| == |slab|
  {
    if 0 <= from && 0 <= size && from + size <= |slab| && 0 <= to && to + size <= |slab| then
      Overwrite(slab, to, slab[from..from + size])
    else slab
  }

  /** One turn of the loop over the sorted live blocks. */
  function SlideOne(p: Layout, h: Hash, layer: nat, blockBytes: nat): Layout
    requires blockBytes > 0
  {
    if h in p.index && layer < |p.index[h].blocks| && layer < |p.index[h].blobs| then
      var b := p.index[h].blocks[layer];
      var needed := Needed(b.dataBytes + b.scaleBytes, blockBytes);
      if b.blockId == p.next then p.(next := p.next + needed)
      else
        Layout(Copied(p.slab, b.blockId * blockBytes, p.next * blockBytes, needed * blockBytes),
               p.index[h := Relocate(p.index[h], layer, p.next, blockBytes)], p.next + needed)
    else p
  }

  /** The layout after the first i live blocks, in order, have been slid to the front. */
  function Slide(slab: seq<Byte>, index: Index, live: seq<Hash>, layer: nat, blockBytes: nat, i: nat): Layout
    requires blockBytes > 0 && i <= |live|
  {
    if i == 0 then Layout(slab, index, 0)
    else SlideOne(Slide(slab, index, live, layer, blockBytes, i - 1), live[i - 1], layer, blockBytes)
  }

  /** What is known of a layer before it is compacted: its live blobs, their lengths and positions. */
  ghost predicate Ready(slab: seq<Byte>, index: Index, live: seq<Hash>, blobs: seq<Blob>, lens: seq<int>, at: seq<int>,
                        layer: nat, numLayers: nat, n: nat, blockBytes: nat)
  {
    && blockBytes > 0 && n == |slab| / blockBytes
    && LiveOn(index, live, layer)
    && (forall h :: h in live ==> EntryOk(h, index[h], numLayers, blockBytes))
    && Describes(blobs, lens, index, live, layer, blockBytes)
    && |at| == |live| && (forall k :: 0 <= k < |live| ==> at[k] == index[live[k]].blocks[layer].blockId)
    && InOrder(lens, at, n)
    && Laid(slab, blobs, at, layer, blockBytes)
  }

  /** Part way through, the first i live entries tile the front and every blob is where `at` says. */
  ghost predicate Progress(p: Layout, index: Index, live: seq<Hash>, blobs: seq<Blob>, lens: seq<int>, at0: seq<int>,
                           at: seq<int>, layer: nat, n: nat, blockBytes: nat, i: nat)
    requires blockBytes > 0 && LiveOn(index, live, layer)
  {
    && |at| == |live| == |at0|
    && SlidUpTo(lens, at0, at, i, p.next, n)
    && RelocatedTo(p.index, index, live, at, layer, blockBytes)
    && n == |p.slab| / blockBytes
    && Laid(p.slab, blobs, at, layer, blockBytes)
  }

  /** The bytes of one turn. */
  lemma SlideOneBytes(slab: seq<Byte>, blobs: seq<Blob>, lens: seq<int>, at0: seq<int>, at: seq<int>, next: int,
                      layer: nat, n: nat, blockBytes: nat, i: nat)
    requires blockBytes > 0 && n == |slab| / blockBytes && |lens| == |blobs|
    requires forall k :: 0 <= k < |lens| ==> lens[k] == BlobBlocks(blobs[k], blockBytes)
    requires SlidUpTo(lens, at0, at, i, next, n) && i < |at|
    requires Laid(slab, blobs, at, layer, blockBytes)
    ensures Laid(Copied(slab, at[i] * blockBytes, next * blockBytes, lens[i] * blockBytes), blobs, at[i := next], layer,
                 blockBytes)
    ensures 0 <= at[i] * blockBytes && 0 <= lens[i] * blockBytes && at[i] * blockBytes + lens[i] * blockBytes <= |slab|
    ensures 0 <= next * blockBytes && next * blockBytes + lens[i] * blockBytes <= |slab|
  {
    SlideIsApart(lens, at0, at, i, next, n);
    MoveBounds(|slab|, n, blockBytes, at[i], next, lens[i]);
    MoveKeeps(slab, blobs, at, layer, blockBytes, i, next, at[i] * blockBytes, next * blockBytes, lens[i] * blockBytes);
  }

  /** What one turn does, in terms of where the blobs are. */
  lemma SlideOneIs(p: Layout, index: Index, live: seq<Hash>, blobs: seq<Blob>, lens: seq<int>, at: seq<int>, layer: nat,
                   numLayers: nat, blockBytes: nat, i: nat)
    requires blockBytes > 0 && LiveOn(index, live, layer) && Describes(blobs, lens, index, live, layer, blockBytes)
    requires |at| == |live| && RelocatedTo(p.index, index, live, at, layer, blockBytes) && i < |live|
    requires EntryOk(live[i], index[live[i]], numLayers, blockBytes)
    ensures live[i] in p.index && layer < |p.index[live[i]].blocks|
    ensures SlideOne(p, live[i], layer, blockBytes) ==
      if at[i] == p.next then p.(next := p.next + lens[i])
      else Layout(Copied(p.slab, at[i] * blockBytes, p.next * blockBytes, lens[i] * blockBytes),
                  p.index[live[i] := Relocate(p.index[live[i]], layer, p.next, blockBytes)], p.next + lens[i])
  {
    LiveBlock(p.index, index, live, at, layer, numLayers, blockBytes, blobs, lens, i);
  }

  /** Moving the next live entry to the front makes one more step of progress. */
  lemma ProgressMove(p: Layout, index: Index, live: seq<Hash>, blobs: seq<Blob>, lens: seq<int>, at0: seq<int>,
                     at: seq<int>, layer: nat, n: nat, blockBytes: nat, i: nat)
    requires blockBytes > 0 && LiveOn(index, live, layer) && Describes(blobs, lens, index, live, layer, blockBytes)
    requires Progress(p, index, live, blobs, lens, at0, at, layer, n, blockBytes, i) && i < |live|
    requires live[i] in p.index && layer < |p.index[live[i]].blocks|
    ensures Progress(Layout(Copied(p.slab, at[i] * blockBytes, p.next * blockBytes, lens[i] * blockBytes),
                            p.index[live[i] := Relocate(p.index[live[i]], layer, p.next, blockBytes)],
                            p.next + lens[i]),
                     index, live, blobs, lens, at0, at[i := p.next], layer, n, blockBytes, i + 1)
  {
    SlideAdvances(lens, at0, at, i, p.next, n);
    RelocateOne(p.index, index, live, at, layer, blockBytes, i, p.next);
    SlideOneBytes(p.slab, blobs, lens, at0, at, p.next, layer, n, blockBytes, i);
  }

  /** So does finding it there. */
  lemma ProgressStay(p: Layout, index: Index, live: seq<Hash>, blobs: seq<Blob>, lens: seq<int>, at0: seq<int>,
                     at: seq<int>, layer: nat, n: nat, blockBytes: nat, i: nat)
    requires blockBytes > 0 && LiveOn(index, live, layer) && Describes(blobs, lens, index, live, layer, blockBytes)
    requires Progress(p, index, live, blobs, lens, at0, at, layer, n, blockBytes, i) && i < |live| && at[i] == p.next
    ensures Progress(p.(next := p.next + lens[i]), index, live, blobs, lens, at0, at[i := p.next], layer, n, blockBytes,
                     i + 1)
  {
    SlideAdvances(lens, at0, at, i, p.next, n);
    assert at[i := p.next] == at;
  }

  /** One turn makes one more step of progress. */
  lemma ProgressOne(p: Layout, index: Index, live: seq<Hash>, blobs: seq<Blob>, lens: seq<int>, at0: seq<int>,
                    at: seq<int>, layer: nat, numLayers: nat, n: nat, blockBytes: nat, i: nat)
    requires blockBytes > 0 && LiveOn(index, live, layer) && Describes(blobs, lens, index, live, layer, blockBytes)
    requires Progress(p, index, live, blobs, lens, at0, at, layer, n, blockBytes, i) && i < |live|
    requires EntryOk(live[i], index[live[i]], numLayers, blockBytes)
    ensures Progress(SlideOne(p, live[i], layer, blockBytes), index, live, blobs, lens, at0, at[i := p.next], layer, n,
                     blockBytes, i + 1)
  {
    SlideOneIs(p, index, live, blobs, lens, at, layer, numLayers, blockBytes, i);
    if at[i] == p.next {
      ProgressStay(p, index, live, blobs, lens, at0, at, layer, n, blockBytes, i);
    } else {
      ProgressMove(p, index, live, blobs, lens, at0, at, layer, n, blockBytes, i);
    }
  }

  lemma {:induction false} SlideProgress(slab: seq<Byte>, index: Index, live: seq<Hash>, blobs: seq<Blob>,
                                         lens: seq<int>, at0: seq<int>, layer: nat, numLayers: nat, n: nat,
                                         blockBytes: nat, i: nat) returns (at: seq<int>)
    requires Ready(slab, index, live, blobs, lens, at0, layer, numLayers, n, blockBytes) && i <= |live|
    ensures Progress(Slide(slab, index, live, layer, blockBytes, i), index, live, blobs, lens, at0, at, layer, n,
                     blockBytes, i)
  {
    if i == 0 {
      at := at0;
      RelocatedNowhere(index, live, at0, layer, numLayers, blockBytes);
      SlideStart(lens, at0, n);
    } else {
      var before := SlideProgress(slab, index, live, blobs, lens, at0, layer, numLayers, n, blockBytes, i - 1);
      var p := Slide(slab, index, live, layer, blockBytes, i - 1);
      assert live[i - 1] in live;
      ProgressOne(p, index, live, blobs, lens, at0, before, layer, numLayers, n, blockBytes, i - 1);
      at := before[i - 1 := p.next];
    }
  }

  /** A turn that can be taken from layout p: the entry is there and both byte ranges lie inside the slab. */
  predicate TurnDefined(p: Layout, h: Hash, layer: nat, blockBytes: nat)
    requires blockBytes > 0
  {
    && h in p.index && layer < |p.index[h].blocks| && layer < |p.index[h].blobs|
    && var b := p.index[h].blocks[layer];
       var size := Needed(b.dataBytes + b.scaleBytes, blockBytes) * blockBytes;
       && 0 <= b.blockId * blockBytes && 0 <= size && b.blockId * blockBytes + size <= |p.slab|
       && 0 <= p.next * blockBytes && p.next * blockBytes + size <= |p.slab|
  }

  lemma ProgressDefines(p: Layout, index: Index, live: seq<Hash>, blobs: seq<Blob>, lens: seq<int>, at0: seq<int>,
                        at: seq<int>, layer: nat, numLayers: nat, n: nat, blockBytes: nat, i: nat)
    requires blockBytes > 0 && LiveOn(index, live, layer) && Describes(blobs, lens, index, live, layer, blockBytes)
    requires Progress(p, index, live, blobs, lens, at0, at, layer, n, blockBytes, i) && i < |live|
    requires EntryOk(live[i], index[live[i]], numLayers, blockBytes)
    ensures TurnDefined(p, live[i], layer, blockBytes)
  {
    LiveBlock(p.index, index, live, at, layer, numLayers, blockBytes, blobs, lens, i);
    RelocateOne(p.index, index, live, at, layer, blockBytes, i, p.next);
    SlideOneBytes(p.slab, blobs, lens, at0, at, p.next, layer, n, blockBytes, i);
  }

  /** Every turn finds its entry, and copies inside the slab. */
  lemma TurnIsDefined(slab: seq<Byte>, index: Index, live: seq<Hash>, blobs: seq<Blob>, lens: seq<int>, at0: seq<int>,
                      layer: nat, numLayers: nat, n: nat, blockBytes: nat, i: nat)
    requires Ready(slab, index, live, blobs, lens, at0, layer, numLayers, n, blockBytes) && i < |live|
    ensures TurnDefined(Slide(slab, index, live, layer, blockBytes, i), live[i], layer, blockBytes)
  {
    var at := SlideProgress(slab, index, live, blobs, lens, at0, layer, numLayers, n, blockBytes, i);
    assert live[i] in live;
    ProgressDefines(Slide(slab, index, live, layer, blockBytes, i), index, live, blobs, lens, at0, at, layer, numLayers,
                    n, blockBytes, i);
  }

  /** The owners of a layer with their spans read off the compacted index. */
  ghost function Respan(owned: map<Owner, Span>, index: Index, layer: nat, blockBytes: nat): (r: map<Owner, Span>)
    requires blockBytes > 0 && forall o :: o in owned ==> o.Entry? && o.hash in index && layer < |index[o.hash].blocks|
    ensures r.Keys == owned.Keys
    ensures forall o :: o in r ==> r[o] == SpanOf(index[o.hash].blocks[layer], blockBytes)
  {
    map o | o in owned :: SpanOf(index[o.hash].blocks[layer], blockBytes)
  }

  /** Only live entries own blocks on a layer, and they still do after compaction. */
  lemma OwnersAreLive(owned: map<Owner, Span>, index: Index, after: Index, live: seq<Hash>, at: seq<int>, layer: nat,
                      blockBytes: nat)
    requires blockBytes > 0 && LiveOn(index, live, layer) && Records(owned, index, [], layer, blockBytes)
    requires NoneLost(owned)
    requires |at| == |live| && RelocatedTo(after, index, live, at, layer, blockBytes)
    ensures forall o :: o in owned ==> o.Entry? && o.hash in live
    ensures forall h :: h in live ==> h in after && layer < |after[h].blocks|
    ensures forall h :: h in after && layer < |after[h].blocks| ==> h in live
  {
    forall o | o in owned ensures o.Entry? && o.hash in live {
      match o { case Entry(h) => case Pending => }
    }
    forall h | h in live ensures h in after && layer < |after[h].blocks| {
      var k :| 0 <= k < |live| && live[k] == h;
      assert after[live[k]] == Relocate(index[live[k]], layer, at[k], blockBytes);
    }
  }

  /** The span of the k-th live entry before and after. */
  lemma LiveSpan(owned: map<Owner, Span>, index: Index, after: Index, live: seq<Hash>, blobs: seq<Blob>, lens: seq<int>,
                 at: seq<int>, layer: nat, numLayers: nat, blockBytes: nat, k: nat)
    requires blockBytes > 0 && LiveOn(index, live, layer) && Records(owned, index, [], layer, blockBytes)
    requires Describes(blobs, lens, index, live, layer, blockBytes)
    requires |at| == |live| && RelocatedTo(after, index, live, at, layer, blockBytes) && k < |live|
    requires EntryOk(live[k], index[live[k]], numLayers, blockBytes)
    ensures live[k] in after && layer < |after[live[k]].blocks|
    ensures SpanOf(after[live[k]].blocks[layer], blockBytes) == Span(at[k], lens[k])
    ensures Entry(live[k]) in owned && owned[Entry(live[k])].len == lens[k]
  {
    assert live[k] in live;
  }

  /** After every live span has been slid, the layer is partitioned with all free blocks at the tail. */
  lemma CompactedLayer(free: seq<int>, owned: map<Owner, Span>, index: Index, after: Index, live: seq<Hash>,
                       blobs: seq<Blob>, lens: seq<int>, at: seq<int>, next: int, layer: nat, numLayers: nat, n: nat,
                       blockBytes: nat)
    requires blockBytes > 0 && LiveOn(index, live, layer) && Describes(blobs, lens, index, live, layer, blockBytes)
    requires Records(owned, index, [], layer, blockBytes) && Partition(free, owned, n) && NoneLost(owned)
    requires forall h :: h in live ==> EntryOk(h, index[h], numLayers, blockBytes)
    requires |at| == |live| && RelocatedTo(after, index, live, at, layer, blockBytes) && Tiles(lens, at, next)
    requires next <= n
    ensures forall o :: o in owned ==> o.Entry? && o.hash in after && layer < |after[o.hash].blocks|
    ensures Records(Respan(owned, after, layer, blockBytes), after, [], layer, blockBytes)
    ensures Partition(Range(next, n), Respan(owned, after, layer, blockBytes), n)
    ensures |Range(next, n)| == |free|
  {
    OwnersAreLive(owned, index, after, live, at, layer, blockBytes);
    forall k | 0 <= k < |live|
      ensures SpanOf(after[live[k]].blocks[layer], blockBytes) == Span(at[k], lens[k])
      ensures Entry(live[k]) in owned && owned[Entry(live[k])].len == lens[k]
    {
      assert live[k] in live;
      LiveSpan(owned, index, after, live, blobs, lens, at, layer, numLayers, blockBytes, k);
    }
    TiledOwners(free, owned, Respan(owned, after, layer, blockBytes), Owners(live), live, lens, at, next, n);
  }

  ghost function Owners(live: seq<Hash>): (r: seq<Owner>)
    ensures |r| == |live| && forall k :: 0 <= k < |r| ==> r[k] == Entry(live[k])
  {
    seq(|live|, k requires 0 <= k < |live| => Entry(live[k]))
  }

  lemma TiledOwners(free: seq<int>, owned: map<Owner, Span>, spans: map<Owner, Span>, owners: seq<Owner>,
                    live: seq<Hash>, lens: seq<int>, at: seq<int>, next: int, n: nat)
    requires Partition(free, owned, n) && spans.Keys == owned.Keys
    requires Tiles(lens, at, next) && next <= n && |owners| == |live| == |at|
    requires forall o :: o in owned ==> o.Entry? && o.hash in live
    requires forall k :: 0 <= k < |live| ==> owners[k] == Entry(live[k])
    requires forall k :: 0 <= k < |live| ==>
      owners[k] in spans && spans[owners[k]] == Span(at[k], lens[k]) && owned[owners[k]].len == lens[k]
    ensures Partition(Range(next, n), spans, n) && |Range(next, n)| == |free|
  {
    forall o | o in owned ensures o in owners && spans[o].len == owned[o].len {
      var k :| 0 <= k < |live| && live[k] == o.hash;
      assert owners[k] == o;
    }
    TilesPartition(spans, owners, lens, at, next, n);
    FreeCount(free, owned, Range(next, n), spans, n);
  }

  /** The same entries with the same blobs; only block records may differ. */
  ghost predicate SameContents(index: Index, before: Index) {
    && index.Keys == before.Keys
    && forall h :: h in before ==>
         index[h].(blocks := before[h].blocks) == before[h] && |index[h].blocks| == |before[h].blocks|
  }

  lemma SameContentsTrans(a: Index, b: Index, c: Index)
    requires SameContents(a, b) && SameContents(b, c)
    ensures SameContents(a, c)
  {
  }

  /** Relocation on one layer keeps every entry well formed, and its records on the other layers. */
  lemma RelocationKeeps(after: Index, before: Index, live: seq<Hash>, at: seq<int>, layer: nat, numLayers: nat,
                        blockBytes: nat)
    requires |at| == |live| && LiveOn(before, live, layer) && RelocatedTo(after, before, live, at, layer, blockBytes)
    requires forall h :: h in before ==> EntryOk(h, before[h], numLayers, blockBytes)
    ensures SameContents(after, before)
    ensures forall h :: h in after ==> EntryOk(h, after[h], numLayers, blockBytes)
    ensures forall h, l :: h in after && 0 <= l < |after[h].blocks| && l != layer ==>
      after[h].blocks[l] == before[h].blocks[l]
  {
    forall h | h in before
      ensures after[h].(blocks := before[h].blocks) == before[h] && |after[h].blocks| == |before[h].blocks|
      ensures EntryOk(h, after[h], numLayers, blockBytes)
      ensures forall l :: 0 <= l < |after[h].blocks| && l != layer ==> after[h].blocks[l] == before[h].blocks[l]
    {
      if h in live {
        var k :| 0 <= k < |live| && live[k] == h;
        assert after[live[k]] == Relocate(before[live[k]], layer, at[k], blockBytes);
      }
    }
  }

  /** Relocation on one layer leaves the records of another layer as they were. */
  lemma OtherRecords(owned: map<Owner, Span>, after: Index, before: Index, layer: nat, l: nat, blockBytes: nat)
    requires blockBytes > 0 && Records(owned, before, [], l, blockBytes) && l != layer && SameContents(after, before)
    requires forall h, k :: h in after && 0 <= k < |after[h].blocks| && k != layer ==>
      after[h].blocks[k] == before[h].blocks[k]
    ensures Records(owned, after, [], l, blockBytes)
  {
  }

  /** The pool after one layer has been compacted. */
  lemma CompactKeeps(free: seq<seq<int>>, owned: seq<map<Owner, Span>>, index: Index, after: Index, live: seq<Hash>,
                     blobs: seq<Blob>, lens: seq<int>, at: seq<int>, next: int, layer: nat, n: nat, blockBytes: nat)
    requires PoolOk(free, owned, index, [], n, blockBytes) && layer < |free| && NoneLost(owned[layer])
    requires LiveOn(index, live, layer) && Describes(blobs, lens, index, live, layer, blockBytes)
    requires |at| == |live| && RelocatedTo(after, index, live, at, layer, blockBytes) && Tiles(lens, at, next)
    requires next <= n
    ensures forall o :: o in owned[layer] ==> o.Entry? && o.hash in after && layer < |after[o.hash].blocks|
    ensures PoolOk(free[layer := Range(next, n)], owned[layer := Respan(owned[layer], after, layer, blockBytes)], after,
                   [], n, blockBytes)
    ensures |Range(next, n)| == |free[layer]|
  {
    RelocationKeeps(after, index, live, at, layer, |free|, blockBytes);
    CompactedLayer(free[layer], owned[layer], index, after, live, blobs, lens, at, next, layer, |free|, n, blockBytes);
    ReplaceLayer(free, owned, index, after, layer, n, blockBytes, Range(next, n),
                 Respan(owned[layer], after, layer, blockBytes));
  }

  lemma ReplaceLayer(free: seq<seq<int>>, owned: seq<map<Owner, Span>>, index: Index, after: Index, layer: nat, n: nat,
                     blockBytes: nat, tail: seq<int>, spans: map<Owner, Span>)
    requires PoolOk(free, owned, index, [], n, blockBytes) && layer < |free|
    requires SameContents(after, index) && forall h :: h in after ==> EntryOk(h, after[h], |free|, blockBytes)
    requires forall h, k :: h in after && 0 <= k < |after[h].blocks| && k != layer ==>
      after[h].blocks[k] == index[h].blocks[k]
    requires Records(spans, after, [], layer, blockBytes) && Partition(tail, spans, n)
    ensures PoolOk(free[layer := tail], owned[layer := spans], after, [], n, blockBytes)
  {
    forall l | 0 <= l < |free| && l != layer
      ensures Records(owned[l], after, [], l, blockBytes)
    {
      OtherRecords(owned[l], after, index, layer, l, blockBytes);
    }
  }

  /** Blobs on the compacted layer are where the new records say. */
  lemma CompactedBlobs(slab: seq<Byte>, after: Index, before: Index, live: seq<Hash>, blobs: seq<Blob>, lens: seq<int>,
                       at: seq<int>, layer: nat, blockBytes: nat, h: Hash)
    requires blockBytes > 0 && LiveOn(before, live, layer) && |at| == |live|
    requires RelocatedTo(after, before, live, at, layer, blockBytes)
    requires Describes(blobs, lens, before, live, layer, blockBytes) && Laid(slab, blobs, at, layer, blockBytes)
    requires h in after && layer < |after[h].blocks|
    ensures layer < |after[h].blobs| && HoldsBlob(slab, after[h].blocks[layer], after[h].blobs[layer])
  {
    assert h in live;
    var k :| 0 <= k < |live| && live[k] == h;
    assert HoldsBlob(slab, PlacedAt(layer, at[k], blobs[k], blockBytes), blobs[k]);
  }

  /** Compacting one layer keeps every blob of every layer stored. */
  lemma CompactedStore(slabs: seq<seq<Byte>>, slab: seq<Byte>, after: Index, before: Index, live: seq<Hash>,
                       blobs: seq<Blob>, lens: seq<int>, at: seq<int>, layer: nat, blockBytes: nat)
    requires layer < |slabs| && StoredIn(slabs, before)
    requires blockBytes > 0 && LiveOn(before, live, layer) && |at| == |live|
    requires RelocatedTo(after, before, live, at, layer, blockBytes)
    requires Describes(blobs, lens, before, live, layer, blockBytes) && Laid(slab, blobs, at, layer, blockBytes)
    requires SameContents(after, before)
    requires forall h, l :: h in after && 0 <= l < |after[h].blocks| && l != layer ==>
      after[h].blocks[l] == before[h].blocks[l]
    ensures StoredIn(slabs[layer := slab], after)
  {
    var slabs' := slabs[layer := slab];
    forall h, l | h in after && 0 <= l < |after[h].blocks| && l < |after[h].blobs| && l < |slabs'|
      ensures HoldsBlob(slabs'[l], after[h].blocks[l], after[h].blobs[l])
    {
      if l == layer {
        CompactedBlobs(slab, after, before, live, blobs, lens, at, layer, blockBytes, h);
      }
    }
  }

  lemma TailOf(next: int, n: nat)
    requires 0 <= next <= n
    ensures IsTail(Range(next, n), n)
  {
  }

  /** The free blocks are one run at the end of the layer. */
  ghost predicate IsTail(free: seq<int>, n: nat) {
    |free| <= n && free == Range(n - |free|, n)
  }

  ghost predicate NoneLost(owned: map<Owner, Span>) {
    forall o :: o in owned ==> !o.Lost?
  }

  /** The owners of a layer without its lost spans. */
  ghost function WithoutLosses(owned: map<Owner, Span>): (r: map<Owner, Span>)
    ensures NoneLost(r) && forall o :: o in r <==> o in owned && !o.Lost?
    ensures forall o :: o in r ==> r[o] == owned[o]
  {
    owned - Losses(owned).Keys
  }

  /** A free list with everything lost on its layer put back. */
  lemma {:induction false} Reclaim(free: seq<int>, owned: map<Owner, Span>, n: nat) returns (all: seq<int>)
    requires Partition(free, owned, n)
    ensures Partition(all, WithoutLosses(owned), n)
    ensures |free| <= |all| && (|all| == |free| <==> Losses(owned) == map[])
    decreases |owned|
  {
    if Losses(owned) == map[] {
      assert WithoutLosses(owned) == owned;
      all := free;
    } else {
      var o :| o in Losses(owned);
      var more := ReclaimOne(free, owned, n, o);
      all := Reclaim(more, owned - {o}, n);
    }
  }

  /** One lost span put back. */
  lemma ReclaimOne(free: seq<int>, owned: map<Owner, Span>, n: nat, o: Owner) returns (more: seq<int>)
    requires Partition(free, owned, n) && o in owned && o.Lost?
    ensures Partition(more, owned - {o}, n) && |free| < |more|
    ensures WithoutLosses(owned - {o}) == WithoutLosses(owned) && |owned - {o}| < |owned|
  {
    GiveBackKeeps(free, owned, n, o);
    assert (owned - {o}).Keys == owned.Keys - {o};
    assert WithoutLosses(owned - {o}) == WithoutLosses(owned);
    more := free + Range(owned[o].start, owned[o].start + owned[o].len);
  }

  /** The pool as it would be had nothing been lost on one layer. */
  lemma ReclaimLayer(free: seq<seq<int>>, owned: seq<map<Owner, Span>>, index: Index, layer: nat, n: nat,
                     blockBytes: nat)
    returns (all: seq<int>)
    requires PoolOk(free, owned, index, [], n, blockBytes) && layer < |free|
    ensures PoolOk(free[layer := all], owned[layer := WithoutLosses(owned[layer])], index, [], n, blockBytes)
    ensures |free[layer]| <= |all| && (|all| == |free[layer]| <==> Losses(owned[layer]) == map[])
  {
    assert Records(owned[layer], index, [], layer, blockBytes);
    all := Reclaim(free[layer], owned[layer], n);
    ReplaceLayer(free, owned, index, index, layer, n, blockBytes, all, WithoutLosses(owned[layer]));
  }

  /** Everything compacting one layer preserves, and what it achieves, when nothing is lost on it. */
  lemma CompactWhole(free: seq<seq<int>>, owned: seq<map<Owner, Span>>, slabs: seq<seq<Byte>>, index: Index, p: Layout,
                     live: seq<Hash>, blobs: seq<Blob>, lens: seq<int>, at0: seq<int>, at: seq<int>, layer: nat, n: nat,
                     blockBytes: nat)
    returns (spans: map<Owner, Span>)
    requires PoolOk(free, owned, index, [], n, blockBytes) && StoredIn(slabs, index) && layer < |free| == |slabs|
    requires NoneLost(owned[layer])
    requires LiveOn(index, live, layer) && Describes(blobs, lens, index, live, layer, blockBytes)
    requires Progress(p, index, live, blobs, lens, at0, at, layer, n, blockBytes, |live|)
    ensures PoolOk(free[layer := Range(p.next, n)], owned[layer := spans], p.index, [], n, blockBytes)
    ensures NoneLost(spans) && StoredIn(slabs[layer := p.slab], p.index)
    ensures SameContents(p.index, index)
    ensures IsTail(Range(p.next, n), n) && |Range(p.next, n)| == |free[layer]|
  {
    SlideDone(lens, at0, at, p.next, n);
    TailOf(p.next, n);
    CompactKeeps(free, owned, index, p.index, live, blobs, lens, at, p.next, layer, n, blockBytes);
    RelocationKeeps(p.index, index, live, at, layer, |free|, blockBytes);
    CompactedStore(slabs, p.slab, p.index, index, live, blobs, lens, at, layer, blockBytes);
    spans := Respan(owned[layer], p.index, layer, blockBytes);
  }

  lemma UpdateTwice<T>(s: seq<T>, i: nat, x: T, y: T)
    requires i < |s|
    ensures s[i := x][i := y] == s[i := y]
  {
  }

  /** In general: blocks lost on the layer are free again, since only live blocks are counted. */
  lemma CompactValues(free: seq<seq<int>>, owned: seq<map<Owner, Span>>, slabs: seq<seq<Byte>>, index: Index, p: Layout,
                      live: seq<Hash>, blobs: seq<Blob>, lens: seq<int>, at0: seq<int>, at: seq<int>, layer: nat,
                      n: nat, blockBytes: nat)
    returns (spans: map<Owner, Span>)
    requires PoolOk(free, owned, index, [], n, blockBytes) && StoredIn(slabs, index) && layer < |free| == |slabs|
    requires LiveOn(index, live, layer) && Describes(blobs, lens, index, live, layer, blockBytes)
    requires Progress(p, index, live, blobs, lens, at0, at, layer, n, blockBytes, |live|)
    ensures PoolOk(free[layer := Range(p.next, n)], owned[layer := spans], p.index, [], n, blockBytes)
    ensures NoneLost(spans) && StoredIn(slabs[layer := p.slab], p.index)
    ensures SameContents(p.index, index)
    ensures IsTail(Range(p.next, n), n) && |free[layer]| <= |Range(p.next, n)|
    ensures |Range(p.next, n)| == |free[layer]| <==> Losses(owned[layer]) == map[]
  {
    var all := ReclaimLayer(free, owned, index, layer, n, blockBytes);
    var free', owned' := free[layer := all], owned[layer := WithoutLosses(owned[layer])];
    spans := CompactWhole(free', owned', slabs, index, p, live, blobs, lens, at0, at, layer, n, blockBytes);
    UpdateTwice(free, layer, all, Range(p.next, n));
    UpdateTwice(owned, layer, WithoutLosses(owned[layer]), spans);
  }
}
