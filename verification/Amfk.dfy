/**
 The AMFK snapshot: the KV blocks of a sequence, gathered from a paged cache into one blob and
 scattered back into other blocks of a cache of the same shape.

 A block of a layer's key (or value) cache is its bytes. Where the Python code would raise, an
 operation here gives None or Raised.
 */
module Amfk {
  import opened Wrappers

  type Bytes = seq<Byte>
  type Block = Bytes

  const MAGIC: nat := 0x414D464B
  const VERSION: nat := 1
  const HEADER_SIZE: nat := 56
  const LAYER_SIZE: nat := 32

  // Little-endian fields

  function Pow256(w: nat): (p: nat)
    ensures p > 0
  {
    if w == 0 then 1 else 256 * Pow256(w - 1)
  }

  function Le(n: nat, w: nat): (b: Bytes)
    ensures |b| == w
  {
    if w == 0 then [] else [(n % 256) as Byte] + Le(n / 256, w - 1)
  }

  function UnLe(b: Bytes): nat {
    if b == [] then 0 else b[0] as int + 256 * UnLe(b[1..])
  }

  lemma {:induction false} LeRoundTrip(n: nat, w: nat)
    requires n < Pow256(w)
    ensures UnLe(Le(n, w)) == n
  {
    if w > 0 {
      LeRoundTrip(n / 256, w - 1);
      ByteRoundTrip(n % 256);
      assert Le(n, w)[1..] == Le(n / 256, w - 1);
    }
  }

  datatype Field = Field(value: nat, width: nat)

  predicate Fits(fields: seq<Field>) {
    forall i :: 0 <= i < |fields| ==> fields[i].value < Pow256(fields[i].width)
  }

  /** struct.pack of fields that fit their widths. */
  function Pack(fields: seq<Field>): Bytes {
    if fields == [] then [] else Le(fields[0].value, fields[0].width) + Pack(fields[1..])
  }

  function Total(widths: seq<nat>): nat {
    if widths == [] then 0 else widths[0] + Total(widths[1..])
  }

  /** struct.unpack_from. */
  function Unpack(widths: seq<nat>, b: Bytes): (values: seq<nat>)
    requires Total(widths) <= |b|
    ensures |values| == |widths|
  {
    if widths == [] then [] else [UnLe(b[..widths[0]])] + Unpack(widths[1..], b[widths[0]..])
  }

  ghost predicate OfWidths(fields: seq<Field>, widths: seq<nat>) {
    |fields| == |widths| && forall i :: 0 <= i < |fields| ==> fields[i].width == widths[i]
  }

  lemma {:induction false} UnpackPack(fields: seq<Field>, widths: seq<nat>, rest: Bytes)
    requires Fits(fields) && OfWidths(fields, widths)
    ensures |Pack(fields)| == Total(widths)
    ensures |Unpack(widths, Pack(fields) + rest)| == |fields|
    ensures forall i :: 0 <= i < |fields| ==> Unpack(widths, Pack(fields) + rest)[i] == fields[i].value
  {
    if fields != [] {
      var w, first := widths[0], Le(fields[0].value, fields[0].width);
      LeRoundTrip(fields[0].value, fields[0].width);
      UnpackPack(fields[1..], widths[1..], rest);
      var b := Pack(fields) + rest;
      assert b == first + (Pack(fields[1..]) + rest);
      assert b[..w] == first && b[w..] == Pack(fields[1..]) + rest;
    }
  }

  // Header and layer table

  datatype Header = Header(magic: nat, version: nat, nLayers: nat, nTokens: nat, nKvHeads: nat, headDim: nat,
                           dtype: nat,
                           reserved: nat, totalKvBytes: nat, modelHash: nat, prefixHash: nat)

  const HEADER_WIDTHS: seq<nat> := [4, 4, 4, 4, 4, 4, 4, 4, 8, 8, 8]
  const LAYER_WIDTHS: seq<nat> := [8, 8, 8, 8]

  function HeaderFields(h: Header): seq<Field> {
    [Field(h.magic, 4), Field(h.version, 4), Field(h.nLayers, 4), Field(h.nTokens, 4), Field(h.nKvHeads, 4),
     Field(h.headDim, 4),
     Field(h.dtype, 4), Field(h.reserved, 4), Field(h.totalKvBytes, 8), Field(h.modelHash, 8), Field(h.prefixHash, 8)]
  }

  function HeaderOf(v: seq<nat>): Header
    requires |v| == 11
  {
    Header(v[0], v[1], v[2], v[3], v[4], v[5], v[6], v[7], v[8], v[9], v[10])
  }

  /** Where a layer's key and value bytes are in the payload. */
  datatype LayerInfo = LayerInfo(kOff: nat, kSize: nat, vOff: nat, vSize: nat)

  function InfoFields(i: LayerInfo): seq<Field> {
    [Field(i.kOff, 8), Field(i.kSize, 8), Field(i.vOff, 8), Field(i.vSize, 8)]
  }

  function InfoOf(v: seq<nat>): LayerInfo
    requires |v| == 4
  {
    LayerInfo(v[0], v[1], v[2], v[3])
  }

  lemma WidthTotals()
    ensures Total(HEADER_WIDTHS) == HEADER_SIZE && Total(LAYER_WIDTHS) == LAYER_SIZE
  {
    assert LAYER_WIDTHS[1..] == [8, 8, 8] && [8, 8, 8][1..] == [8, 8] && [8, 8][1..] == [8];
    assert HEADER_WIDTHS[1..] == [4, 4, 4, 4, 4, 4, 4, 8, 8, 8];
    assert [4, 4, 4, 4, 4, 4, 4, 8, 8, 8][1..] == [4, 4, 4, 4, 4, 4, 8, 8, 8];
    assert [4, 4, 4, 4, 4, 4, 8, 8, 8][1..] == [4, 4, 4, 4, 4, 8, 8, 8];
    assert [4, 4, 4, 4, 4, 8, 8, 8][1..] == [4, 4, 4, 4, 8, 8, 8];
    assert [4, 4, 4, 4, 8, 8, 8][1..] == [4, 4, 4, 8, 8, 8];
    assert [4, 4, 4, 8, 8, 8][1..] == [4, 4, 8, 8, 8];
    assert [4, 4, 8, 8, 8][1..] == [4, 8, 8, 8];
    assert [4, 8, 8, 8][1..] == [8, 8, 8];
  }

  lemma HeaderOfValues(h: Header, v: seq<nat>)
    requires |v| == 11 && forall i :: 0 <= i < 11 ==> v[i] == HeaderFields(h)[i].value
    ensures HeaderOf(v) == h
  {
    var f := HeaderFields(h);
    assert v[0] == f[0].value && v[1] == f[1].value && v[2] == f[2].value && v[3] == f[3].value && v[4] == f[4].value;
    assert v[5] == f[5].value && v[6] == f[6].value && v[7] == f[7].value && v[8] == f[8].value && v[9] == f[9].value;
    assert v[10] == f[10].value;
  }

  lemma HeaderRoundTrip(h: Header, rest: Bytes)
    requires Fits(HeaderFields(h))
    ensures |Pack(HeaderFields(h))| == HEADER_SIZE && Total(HEADER_WIDTHS) == HEADER_SIZE
    ensures HeaderOf(Unpack(HEADER_WIDTHS, Pack(HeaderFields(h)) + rest)) == h
  {
    WidthTotals();
    UnpackPack(HeaderFields(h), HEADER_WIDTHS, rest);
    HeaderOfValues(h, Unpack(HEADER_WIDTHS, Pack(HeaderFields(h)) + rest));
  }

  lemma InfoRoundTrip(i: LayerInfo, rest: Bytes)
    requires Fits(InfoFields(i))
    ensures |Pack(InfoFields(i))| == LAYER_SIZE && Total(LAYER_WIDTHS) == LAYER_SIZE
    ensures InfoOf(Unpack(LAYER_WIDTHS, Pack(InfoFields(i)) + rest)) == i
  {
    WidthTotals();
    UnpackPack(InfoFields(i), LAYER_WIDTHS, rest);
  }

  // Byte layout

  /** Byte j of a little-endian field is its j-th digit to the base 256. */
  lemma {:induction false} LeByte(n: nat, w: nat, j: nat)
    requires j < w
    ensures Le(n, w)[j] as int == n / Pow256(j) % 256
  {
    if j == 0 {
      ByteRoundTrip(n % 256);
    } else {
      LeByte(n / 256, w - 1, j - 1);
      DivTwice(n, Pow256(j - 1));
    }
  }

  lemma DivTwice(n: nat, d: nat)
    requires d > 0
    ensures n / 256 / d == n / (256 * d)
  {
    var q, r := n / (256 * d), n % (256 * d);
    assert n == q * (256 * d) + r;
    assert n / 256 == q * d + r / 256 by {
      assert n == 256 * (q * d + r / 256) + r % 256;
    }
    assert r / 256 < d;
    DivUnique(n / 256, d, q, r / 256);
  }

  lemma DivUnique(x: nat, d: nat, q: nat, r: nat)
    requires d > 0 && x == q * d + r && r < d
    ensures x / d == q
  {
    var p, m := x / d, x % d;
    assert x == p * d + m;
    if p < q {
      Apart(p, q, d);
    } else if p > q {
      Apart(q, p, d);
    }
  }

  lemma Apart(p: nat, q: nat, d: nat)
    requires p < q
    ensures p * d + d <= q * d
  {
    assert q * d == p * d + (q - p) * d;
    assert (q - p) * d == d + (q - p - 1) * d;
  }

  /** The field is written at this offset. */
  ghost predicate FieldAt(b: Bytes, offset: nat, f: Field) {
    offset + f.width <= |b| && b[offset..offset + f.width] == Le(f.value, f.width)
  }

  function Offset(fields: seq<Field>, i: nat): nat
    requires i <= |fields|
  {
    if i == 0 then 0 else fields[0].width + Offset(fields[1..], i - 1)
  }

  lemma {:induction false} OffsetNext(fields: seq<Field>, i: nat)
    requires i < |fields|
    ensures Offset(fields, i + 1) == Offset(fields, i) + fields[i].width
  {
    if i > 0 {
      OffsetNext(fields[1..], i - 1);
    }
  }

  lemma {:induction false} PackAt(fields: seq<Field>, i: nat, rest: Bytes)
    requires i < |fields|
    ensures FieldAt(Pack(fields) + rest, Offset(fields, i), fields[i])
  {
    var first := Le(fields[0].value, fields[0].width);
    var tail := Pack(fields[1..]) + rest;
    assert Pack(fields) + rest == first + tail;
    if i == 0 {
      assert (first + tail)[..fields[0].width] == first;
    } else {
      PackAt(fields[1..], i - 1, rest);
      var o, w := Offset(fields[1..], i - 1), fields[i].width;
      assert (first + tail)[|first| + o..|first| + o + w] == tail[o..o + w];
    }
  }

  function HeaderOffset(k: nat): nat {
    if k <= 8 then 4 * k else 32 + 8 * (k - 8)
  }

  lemma {:induction false} HeaderOffsets(h: Header, k: nat)
    requires k <= 10
    ensures Offset(HeaderFields(h), k) == HeaderOffset(k)
  {
    if k > 0 {
      HeaderOffsets(h, k - 1);
      OffsetNext(HeaderFields(h), k - 1);
    }
  }

  lemma HeaderField(h: Header, rest: Bytes, k: nat)
    requires k <= 10
    ensures FieldAt(Pack(HeaderFields(h)) + rest, HeaderOffset(k), HeaderFields(h)[k])
  {
    HeaderOffsets(h, k);
    PackAt(HeaderFields(h), k, rest);
  }

  /** The header: eight 32-bit fields from offset 0 on, then three 64-bit ones from 32 on. */
  lemma HeaderLayout(h: Header, rest: Bytes)
    ensures
      var b := Pack(HeaderFields(h)) + rest;
      && FieldAt(b, 0, Field(h.magic, 4)) && FieldAt(b, 4, Field(h.version, 4)) && FieldAt(b, 8, Field(h.nLayers, 4))
      && FieldAt(b, 12, Field(h.nTokens, 4)) && FieldAt(b, 16, Field(h.nKvHeads, 4))
      && FieldAt(b, 20, Field(h.headDim, 4)) && FieldAt(b, 24, Field(h.dtype, 4))
      && FieldAt(b, 28, Field(h.reserved, 4))
      && FieldAt(b, 32, Field(h.totalKvBytes, 8)) && FieldAt(b, 40, Field(h.modelHash, 8))
      && FieldAt(b, 48, Field(h.prefixHash, 8))
  {
    HeaderField(h, rest, 0);
    HeaderField(h, rest, 1);
    HeaderField(h, rest, 2);
    HeaderField(h, rest, 3);
    HeaderField(h, rest, 4);
    HeaderField(h, rest, 5);
    HeaderField(h, rest, 6);
    HeaderField(h, rest, 7);
    HeaderField(h, rest, 8);
    HeaderField(h, rest, 9);
    HeaderField(h, rest, 10);
  }

  /** A row of the layer table: four 64-bit fields. */
  lemma InfoLayout(i: LayerInfo, rest: Bytes)
    ensures
      var b := Pack(InfoFields(i)) + rest;
      && FieldAt(b, 0, Field(i.kOff, 8)) && FieldAt(b, 8, Field(i.kSize, 8))
      && FieldAt(b, 16, Field(i.vOff, 8)) && FieldAt(b, 24, Field(i.vSize, 8))
  {
    var f := InfoFields(i);
    PackAt(f, 0, rest);
    OffsetNext(f, 0);
    PackAt(f, 1, rest);
    OffsetNext(f, 1);
    PackAt(f, 2, rest);
    OffsetNext(f, 2);
    PackAt(f, 3, rest);
  }

  // Payload

  /** The gathered key and value bytes of one layer. */
  datatype Part = Part(k: Bytes, v: Bytes)

  function Payload(parts: seq<Part>): Bytes {
    if parts == [] then [] else Payload(parts[..|parts| - 1]) + parts[|parts| - 1].k + parts[|parts| - 1].v
  }

  /** The table of the parts laid end to end, each layer's keys before its values. */
  function Infos(parts: seq<Part>): (infos: seq<LayerInfo>)
    ensures |infos| == |parts|
  {
    if parts == [] then []
    else
      var at, last := |Payload(parts[..|parts| - 1])|, parts[|parts| - 1];
      Infos(parts[..|parts| - 1]) + [LayerInfo(at, |last.k|, at + |last.k|, |last.v|)]
  }

  /** The ranges of the table follow one another from 0 to the end without gap or overlap. */
  ghost predicate Tiles(infos: seq<LayerInfo>, total: nat) {
    && (forall i :: 0 <= i < |infos| ==> infos[i].vOff == infos[i].kOff + infos[i].kSize)
    && (forall i :: 0 <= i < |infos| ==>
          infos[i].kOff == if i == 0 then 0 else infos[i - 1].vOff + infos[i - 1].vSize)
    && total == if infos == [] then 0 else infos[|infos| - 1].vOff + infos[|infos| - 1].vSize
  }

  lemma {:induction false} InfosTile(parts: seq<Part>)
    ensures Tiles(Infos(parts), |Payload(parts)|)
  {
    if parts != [] {
      InfosTile(parts[..|parts| - 1]);
    }
  }

  /** Python's slice: ends past the end of the payload are cut off. */
  function Slice(b: Bytes, from: nat, size: nat): Bytes {
    if from > |b| then [] else if from + size > |b| then b[from..] else b[from..from + size]
  }

  /** The payload at a layer's ranges is that layer's bytes. */
  lemma {:induction false} PayloadAt(parts: seq<Part>, i: nat)
    requires i < |parts|
    ensures Slice(Payload(parts), Infos(parts)[i].kOff, Infos(parts)[i].kSize) == parts[i].k
    ensures Slice(Payload(parts), Infos(parts)[i].vOff, Infos(parts)[i].vSize) == parts[i].v
  {
    var n := |parts| - 1;
    var before, last := Payload(parts[..n]), parts[n];
    if i == n {
      assert Payload(parts)[|before|..|before| + |last.k|] == last.k;
    } else {
      PayloadAt(parts[..n], i);
      InfoInside(parts[..n], i);
      SliceAppend(before, last.k + last.v, Infos(parts)[i].kOff, Infos(parts)[i].kSize);
      SliceAppend(before, last.k + last.v, Infos(parts)[i].vOff, Infos(parts)[i].vSize);
      assert Payload(parts) == before + (last.k + last.v);
    }
  }

  lemma SliceAppend(a: Bytes, b: Bytes, from: nat, size: nat)
    requires from + size <= |a|
    ensures Slice(a + b, from, size) == Slice(a, from, size)
  {
  }

  lemma {:induction false} InfoInside(parts: seq<Part>, i: nat)
    requires i < |parts|
    ensures Infos(parts)[i].kOff + Infos(parts)[i].kSize <= |Payload(parts)|
    ensures Infos(parts)[i].vOff + Infos(parts)[i].vSize <= |Payload(parts)|
  {
    if i < |parts| - 1 {
      InfoInside(parts[..|parts| - 1], i);
    }
  }

  function Table(infos: seq<LayerInfo>): Bytes {
    if infos == [] then [] else Table(infos[..|infos| - 1]) + Pack(InfoFields(infos[|infos| - 1]))
  }

  ghost predicate AllFit(infos: seq<LayerInfo>) {
    forall i :: 0 <= i < |infos| ==> Fits(InfoFields(infos[i]))
  }

  lemma {:induction false} TableLength(infos: seq<LayerInfo>)
    requires AllFit(infos)
    ensures |Table(infos)| == 32 * |infos|
  {
    if infos != [] {
      TableLength(infos[..|infos| - 1]);
      InfoRoundTrip(infos[|infos| - 1], []);
    }
  }

  /** Row i of the table starts 32 * i bytes in. */
  lemma {:induction false} TableAt(infos: seq<LayerInfo>, rest: Bytes, i: nat)
    requires AllFit(infos) && i < |infos|
    ensures |Table(infos)| == 32 * |infos| && Total(LAYER_WIDTHS) == 32
    ensures InfoOf(Unpack(LAYER_WIDTHS, (Table(infos) + rest)[32 * i..])) == infos[i]
  {
    TableLength(infos);
    var n := |infos| - 1;
    var row := Pack(InfoFields(infos[n]));
    TableLength(infos[..n]);
    if i == n {
      InfoRoundTrip(infos[n], rest);
      assert (Table(infos) + rest)[32 * n..] == row + rest;
    } else {
      TableAt(infos[..n], row + rest, i);
      assert Table(infos) + rest == Table(infos[..n]) + (row + rest);
    }
  }

  /** The whole blob: header, layer table, payload. */
  function Blob(h: Header, parts: seq<Part>): Bytes {
    Pack(HeaderFields(h)) + Table(Infos(parts)) + Payload(parts)
  }

  /** The header and table of a blob can be read back: every field is in range. */
  ghost predicate Packable(h: Header, parts: seq<Part>) {
    Fits(HeaderFields(h)) && AllFit(Infos(parts)) && h.nLayers == |parts|
  }

  // Paged cache

  /** One layer of a stacked cache: its key blocks and value blocks, all of one size. */
  datatype LayerCache = LayerCache(k: seq<Block>, v: seq<Block>, blockBytes: nat)

  ghost predicate Uniform(blocks: seq<Block>, size: nat) {
    forall i :: 0 <= i < |blocks| ==> |blocks[i]| == size
  }

  ghost predicate Shaped(l: LayerCache) {
    l.blockBytes > 0 && |l.k| == |l.v| && Uniform(l.k, l.blockBytes) && Uniform(l.v, l.blockBytes)
  }

  predicate InRange(table: seq<nat>, n: nat) {
    forall i :: 0 <= i < |table| ==> table[i] < n
  }

  /** The listed blocks in order; an empty list means the whole cache. */
  function Gather(blocks: seq<Block>, table: seq<nat>): (g: seq<Block>)
    requires InRange(table, |blocks|)
    ensures table == [] ==> g == blocks
    ensures table != [] ==> |g| == |table| && forall i :: 0 <= i < |g| ==> g[i] == blocks[table[i]]
  {
    if table == [] then blocks else seq(|table|, i requires 0 <= i < |table| => blocks[table[i]])
  }

  function Flatten(blocks: seq<Block>): Bytes {
    if blocks == [] then [] else blocks[0] + Flatten(blocks[1..])
  }

  /** Bytes read back as n blocks of one size. */
  function Chop(b: Bytes, size: nat, n: nat): (blocks: seq<Block>)
    requires |b| == n * size
    ensures |blocks| == n
  {
    if n == 0 then [] else
      assert n * size == size + (n - 1) * size;
      [b[..size]] + Chop(b[size..], size, n - 1)
  }

  lemma {:induction false} ChopFlatten(blocks: seq<Block>, size: nat)
    requires Uniform(blocks, size)
    ensures |Flatten(blocks)| == |blocks| * size
    ensures Chop(Flatten(blocks), size, |blocks|) == blocks
  {
    if blocks != [] {
      ChopFlatten(blocks[1..], size);
      var b := Flatten(blocks);
      assert b[..size] == blocks[0] && b[size..] == Flatten(blocks[1..]);
      assert |blocks| * size == size + (|blocks| - 1) * size;
    }
  }

  /** Blocks written to the listed positions one after another. */
  function Scatter(blocks: seq<Block>, table: seq<nat>, src: seq<Block>): (r: seq<Block>)
    requires InRange(table, |blocks|) && |src| == |table|
    ensures |r| == |blocks|
  {
    if table == [] then blocks
    else Scatter(blocks, table[..|table| - 1], src[..|table| - 1])[table[|table| - 1] := src[|table| - 1]]
  }

  ghost predicate Distinct(table: seq<nat>) {
    forall i, j :: 0 <= i < j < |table| ==> table[i] != table[j]
  }

  /** Into distinct positions, each block lands in its own and no other position changes. */
  lemma {:induction false} ScatterExact(blocks: seq<Block>, table: seq<nat>, src: seq<Block>)
    requires InRange(table, |blocks|) && |src| == |table| && Distinct(table)
    ensures forall i :: 0 <= i < |table| ==> Scatter(blocks, table, src)[table[i]] == src[i]
    ensures forall b :: 0 <= b < |blocks| && b !in table ==> Scatter(blocks, table, src)[b] == blocks[b]
  {
    if table != [] {
      var n := |table| - 1;
      ScatterExact(blocks, table[..n], src[..n]);
      var before, r := Scatter(blocks, table[..n], src[..n]), Scatter(blocks, table, src);
      assert r == before[table[n] := src[n]];
      forall i | 0 <= i < n
        ensures r[table[i]] == src[i]
      {
        assert before[table[..n][i]] == src[..n][i];
      }
      forall b | 0 <= b < |blocks| && b !in table
        ensures r[b] == blocks[b]
      {
        assert b !in table[..n] && b != table[n];
      }
    }
  }

  /** What a layer holds after its part of a payload is restored; None where reshaping or indexing raises. */
  function RestoredLayer(l: LayerCache, info: LayerInfo, payload: Bytes, table: seq<nat>): Option<LayerCache> {
    var k, v := Slice(payload, info.kOff, info.kSize), Slice(payload, info.vOff, info.vSize);
    if (info.kSize == 0 && info.vSize == 0) || table == [] then Some(l)
    else if !InRange(table, |l.k|) || !InRange(table, |l.v|) then None
    else if |k| != |table| * l.blockBytes || |v| != |table| * l.blockBytes then None
    else Some(l.(k := Scatter(l.k, table, Chop(k, l.blockBytes, |table|)),
                 v := Scatter(l.v, table, Chop(v, l.blockBytes, |table|))))
  }

  function PartOf(l: LayerCache, table: seq<nat>): Part
    requires InRange(table, |l.k|) && InRange(table, |l.v|)
  {
    Part(Flatten(Gather(l.k, table)), Flatten(Gather(l.v, table)))
  }

  ghost predicate TableOk(cache: seq<LayerCache>, table: seq<nat>) {
    forall l :: 0 <= l < |cache| ==> InRange(table, |cache[l].k|) && InRange(table, |cache[l].v|)
  }

  function Parts(cache: seq<LayerCache>, table: seq<nat>): (p: seq<Part>)
    requires TableOk(cache, table)
    ensures |p| == |cache| && forall l :: 0 <= l < |p| ==> p[l] == PartOf(cache[l], table)
  {
    seq(|cache|, l requires 0 <= l < |cache| => PartOf(cache[l], table))
  }

  // Reading a blob

  function HeaderIn(blob: Bytes): Header
    requires |blob| >= HEADER_SIZE
  {
    WidthTotals();
    HeaderOf(Unpack(HEADER_WIDTHS, blob))
  }

  /** The checks restore makes before it touches the cache. */
  predicate Readable(blob: Bytes, layers: nat) {
    && |blob| >= HEADER_SIZE
    && HeaderIn(blob).magic == MAGIC && HeaderIn(blob).version == VERSION && HeaderIn(blob).nLayers == layers
    && |blob| >= HEADER_SIZE + layers * LAYER_SIZE
  }

  function InfoIn(blob: Bytes, i: nat): LayerInfo
    requires HEADER_SIZE + (i + 1) * LAYER_SIZE <= |blob|
  {
    WidthTotals();
    InfoOf(Unpack(LAYER_WIDTHS, blob[HEADER_SIZE + i * LAYER_SIZE..]))
  }

  function PayloadIn(blob: Bytes, layers: nat): Bytes
    requires HEADER_SIZE + layers * LAYER_SIZE <= |blob|
  {
    blob[HEADER_SIZE + layers * LAYER_SIZE..]
  }

  /** The three pieces of a blob and where they start. */
  lemma {:induction false} BlobLayout(h: Header, parts: seq<Part>)
    requires Packable(h, parts)
    ensures |Blob(h, parts)| >= 56 + 32 * |parts|
    ensures Blob(h, parts) == Pack(HeaderFields(h)) + (Table(Infos(parts)) + Payload(parts))
    ensures Blob(h, parts)[56..] == Table(Infos(parts)) + Payload(parts)
    ensures Blob(h, parts)[56 + 32 * |parts|..] == Payload(parts)
  {
    HeaderLength(h);
    TableLength(Infos(parts));
  }

  lemma HeaderLength(h: Header)
    requires Fits(HeaderFields(h))
    ensures |Pack(HeaderFields(h))| == 56
  {
    HeaderRoundTrip(h, []);
  }

  lemma {:induction false} HeaderInBlob(h: Header, parts: seq<Part>)
    requires Packable(h, parts)
    ensures |Blob(h, parts)| >= HEADER_SIZE && HeaderIn(Blob(h, parts)) == h
  {
    BlobLayout(h, parts);
    HeaderRoundTrip(h, Table(Infos(parts)) + Payload(parts));
  }

  lemma {:induction false} InfoInBlob(h: Header, parts: seq<Part>, i: nat)
    requires Packable(h, parts) && i < |parts|
    ensures |Blob(h, parts)| >= HEADER_SIZE + |parts| * LAYER_SIZE && InfoIn(Blob(h, parts), i) == Infos(parts)[i]
  {
    BlobLayout(h, parts);
    TableAt(Infos(parts), Payload(parts), i);
    DropDrop(Blob(h, parts), 56, 32 * i);
  }

  lemma DropDrop<T>(s: seq<T>, a: nat, b: nat)
    requires a + b <= |s|
    ensures s[a..][b..] == s[a + b..]
  {
  }

  /** Row i of the table is written 32 * i bytes in. */
  lemma {:induction false} TableRow(infos: seq<LayerInfo>, rest: Bytes, i: nat)
    requires AllFit(infos) && i < |infos|
    ensures |Table(infos)| == 32 * |infos| && (Table(infos) + rest)[32 * i..32 * i + 32] == Pack(InfoFields(infos[i]))
  {
    TableLength(infos);
    var n := |infos| - 1;
    var row := Pack(InfoFields(infos[n]));
    TableLength(infos[..n]);
    InfoRoundTrip(infos[n], []);
    assert Table(infos) + rest == Table(infos[..n]) + (row + rest);
    if i < n {
      TableRow(infos[..n], row + rest, i);
    }
  }

  /** In a whole blob, the row of layer l starts at 56 + 32 * l: where its keys and values are, and how many bytes. */
  lemma {:induction false} RowLayout(h: Header, parts: seq<Part>, l: nat)
    requires Packable(h, parts) && l < |parts|
    ensures
      var b, i := Blob(h, parts), Infos(parts)[l];
      && FieldAt(b, 56 + 32 * l, Field(i.kOff, 8)) && FieldAt(b, 64 + 32 * l, Field(i.kSize, 8))
      && FieldAt(b, 72 + 32 * l, Field(i.vOff, 8)) && FieldAt(b, 80 + 32 * l, Field(i.vSize, 8))
  {
    RowSlice(h, parts, l);
    InfoLayout(Infos(parts)[l], []);
    RowFields(Blob(h, parts), 56 + 32 * l, Infos(parts)[l]);
  }

  lemma RowSlice(h: Header, parts: seq<Part>, l: nat)
    requires Packable(h, parts) && l < |parts|
    ensures
      var b, row := Blob(h, parts), Pack(InfoFields(Infos(parts)[l]));
      |row| == 32 && 88 + 32 * l <= |b| && b[56 + 32 * l..88 + 32 * l] == row
  {
    var b := Blob(h, parts);
    BlobLayout(h, parts);
    TableRow(Infos(parts), Payload(parts), l);
    DropSlice(b, 56, 32 * l, 32);
  }

  lemma DropSlice<T>(s: seq<T>, a: nat, at: nat, n: nat)
    requires a + at + n <= |s|
    ensures s[a..][at..at + n] == s[a + at..a + at + n]
  {
  }

  lemma RowFields(b: Bytes, at: nat, i: LayerInfo)
    requires
      var row := Pack(InfoFields(i));
      && at + |row| <= |b| && b[at..at + |row|] == row
      && FieldAt(row + [], 0, Field(i.kOff, 8)) && FieldAt(row + [], 8, Field(i.kSize, 8))
      && FieldAt(row + [], 16, Field(i.vOff, 8)) && FieldAt(row + [], 24, Field(i.vSize, 8))
    ensures FieldAt(b, at, Field(i.kOff, 8)) && FieldAt(b, at + 8, Field(i.kSize, 8))
    ensures FieldAt(b, at + 16, Field(i.vOff, 8)) && FieldAt(b, at + 24, Field(i.vSize, 8))
  {
    var row := Pack(InfoFields(i));
    assert row + [] == row;
    RowField(b, at, row, 0, Field(i.kOff, 8));
    RowField(b, at, row, 8, Field(i.kSize, 8));
    RowField(b, at, row, 16, Field(i.vOff, 8));
    RowField(b, at, row, 24, Field(i.vSize, 8));
  }

  lemma RowField(b: Bytes, at: nat, row: Bytes, o: nat, f: Field)
    requires at + |row| <= |b| && b[at..at + |row|] == row && FieldAt(row, o, f)
    ensures FieldAt(b, at + o, f)
  {
    SliceOfSlice(b, at, |row|, o, f.width);
  }

  lemma SliceOfSlice<T>(s: seq<T>, at: nat, n: nat, o: nat, w: nat)
    requires at + n <= |s| && o + w <= n
    ensures s[at..at + n][o..o + w] == s[at + o..at + o + w]
  {
    var inner, outer := s[at..at + n][o..o + w], s[at + o..at + o + w];
    forall i | 0 <= i < w ensures inner[i] == outer[i] {
      assert s[at..at + n][o + i] == s[at + (o + i)];
    }
  }

  /** Parsing a written blob recovers the header, the table and the payload. */
  lemma {:induction false} ParseBlob(h: Header, parts: seq<Part>)
    requires Packable(h, parts) && h.magic == MAGIC && h.version == VERSION
    ensures Readable(Blob(h, parts), |parts|) && HeaderIn(Blob(h, parts)) == h
    ensures forall i :: 0 <= i < |parts| ==> InfoIn(Blob(h, parts), i) == Infos(parts)[i]
    ensures PayloadIn(Blob(h, parts), |parts|) == Payload(parts)
  {
    BlobLayout(h, parts);
    HeaderInBlob(h, parts);
    forall i | 0 <= i < |parts|
      ensures InfoIn(Blob(h, parts), i) == Infos(parts)[i]
    {
      InfoInBlob(h, parts, i);
    }
  }

  /** Saved block i of a layer is in the i-th listed block of another, and no other block has changed. */
  ghost predicate Moved(from: LayerCache, table: seq<nat>, into: LayerCache, now: LayerCache, table': seq<nat>) {
    && Shaped(now) && |now.k| == |into.k| == |into.v| && InRange(table, |from.k|) && InRange(table, |from.v|)
    && InRange(table', |into.k|) && |table'| == |Gather(from.k, table)| == |Gather(from.v, table)|
    && (forall i :: 0 <= i < |table'| ==> now.k[table'[i]] == Gather(from.k, table)[i])
    && (forall i :: 0 <= i < |table'| ==> now.v[table'[i]] == Gather(from.v, table)[i])
    && (forall b :: 0 <= b < |into.k| && b !in table' ==> now.k[b] == into.k[b] && now.v[b] == into.v[b])
  }

  /** The blocks of one layer fit the listed blocks of another of the same shape, which are distinct. */
  ghost predicate FitsInto(from: LayerCache, table: seq<nat>, into: LayerCache, table': seq<nat>) {
    && Shaped(from) && Shaped(into) && into.blockBytes == from.blockBytes && InRange(table, |from.k|)
    && Distinct(table') && InRange(table', |into.k|) && |table'| == |Gather(from.k, table)|
  }

  /** Restoring a saved layer where it fits moves its blocks. */
  lemma {:induction false} LayerRoundTrip(h: Header, cache: seq<LayerCache>, table: seq<nat>, l: nat, into: LayerCache,
                                          table': seq<nat>)
    requires TableOk(cache, table) && l < |cache| && FitsInto(cache[l], table, into, table')
    requires Packable(h, Parts(cache, table)) && h.magic == MAGIC && h.version == VERSION
    ensures
      var blob := Blob(h, Parts(cache, table));
      && Readable(blob, |cache|)
      && var r := RestoredLayer(into, InfoIn(blob, l), PayloadIn(blob, |cache|), table');
         r.Some? && Moved(cache[l], table, into, r.value, table')
  {
    var parts := Parts(cache, table);
    var gk, gv := Gather(cache[l].k, table), Gather(cache[l].v, table);
    ParseBlob(h, parts);
    PayloadAt(parts, l);
    PartSizes(parts, l);
    ChopFlatten(gk, into.blockBytes);
    ChopFlatten(gv, into.blockBytes);
    ScatterExact(into.k, table', gk);
    ScatterExact(into.v, table', gv);
    ScatterUniform(into.k, table', gk, into.blockBytes);
    ScatterUniform(into.v, table', gv, into.blockBytes);
  }

  lemma {:induction false} PartSizes(parts: seq<Part>, i: nat)
    requires i < |parts|
    ensures Infos(parts)[i].kSize == |parts[i].k| && Infos(parts)[i].vSize == |parts[i].v|
  {
    if i < |parts| - 1 {
      PartSizes(parts[..|parts| - 1], i);
    }
  }

  lemma {:induction false} ScatterUniform(blocks: seq<Block>, table: seq<nat>, src: seq<Block>, size: nat)
    requires InRange(table, |blocks|) && |src| == |table| && Uniform(blocks, size) && Uniform(src, size)
    ensures Uniform(Scatter(blocks, table, src), size)
  {
    if table != [] {
      ScatterUniform(blocks, table[..|table| - 1], src[..|table| - 1], size);
    }
  }

  /** The parts of a payload up to a layer form its beginning. */
  lemma PayloadNext(parts: seq<Part>, i: nat)
    requires i < |parts|
    ensures Payload(parts[..i + 1]) == Payload(parts[..i]) + parts[i].k + parts[i].v
    ensures Infos(parts[..i + 1]) == Infos(parts[..i]) +
      [LayerInfo(|Payload(parts[..i])|, |parts[i].k|, |Payload(parts[..i])| + |parts[i].k|, |parts[i].v|)]
  {
    assert parts[..i + 1][..i] == parts[..i];
  }

  lemma {:induction false} PayloadGrows(parts: seq<Part>, i: nat)
    requires i <= |parts|
    ensures |Payload(parts[..i])| <= |Payload(parts)|
    decreases |parts| - i
  {
    if i == |parts| {
      assert parts[..i] == parts;
    } else {
      PayloadGrows(parts, i + 1);
      PayloadNext(parts, i);
    }
  }

  /** One pass over the layers, each placed where the previous one ended. */
  method LayOut(parts: seq<Part>) returns (infos: seq<LayerInfo>, total: nat)
    ensures infos == Infos(parts) && total == |Payload(parts)|
  {
    infos, total := [], 0;
    for i := 0 to |parts|
      invariant infos == Infos(parts[..i]) && total == |Payload(parts[..i])|
    {
      PayloadNext(parts, i);
      var k, v := |parts[i].k|, |parts[i].v|;
      infos := infos + [LayerInfo(total, k, total + k, v)];
      total := total + k + v;
    }
    assert parts[..|parts|] == parts;
  }

  /** Slice assignment into the payload buffer. */
  method Assign(a: array<Byte>, off: nat, data: Bytes)
    requires off + |data| <= a.Length
    modifies a
    ensures a[..off] == old(a[..off]) && a[off..off + |data|] == data && a[off + |data|..] == old(a[off + |data|..])
  {
    for i := 0 to |data|
      invariant a[..off] == old(a[..off]) && a[off..off + i] == data[..i] && a[off + i..] == old(a[off + i..])
    {
      a[off + i] := data[i];
      assert a[off..off + i + 1] == a[off..off + i] + [data[i]];
      assert a[off + i + 1..] == old(a[off + i..])[1..];
    }
  }

  /** One layer's keys and values copied behind what the buffer already holds. */
  method CopyLayer(a: array<Byte>, info: LayerInfo, part: Part)
    requires info == LayerInfo(info.kOff, |part.k|, info.kOff + |part.k|, |part.v|)
    requires info.vOff + info.vSize <= a.Length
    modifies a
    ensures a[..info.vOff + info.vSize] == old(a[..info.kOff]) + part.k + part.v
  {
    Assign(a, info.kOff, part.k);
    assert a[..info.vOff] == a[..info.kOff] + a[info.kOff..info.vOff];
    Assign(a, info.vOff, part.v);
    assert a[..info.vOff + info.vSize] == a[..info.vOff] + a[info.vOff..info.vOff + info.vSize];
  }

  /** Every layer copied to its place in the buffer fills the buffer with the payload. */
  method FillPayload(parts: seq<Part>, infos: seq<LayerInfo>, total: nat) returns (payload: Bytes)
    requires infos == Infos(parts) && total == |Payload(parts)|
    ensures payload == Payload(parts)
  {
    var a := new Byte[total];
    for i := 0 to |parts|
      invariant |Payload(parts[..i])| <= total && a[..|Payload(parts[..i])|] == Payload(parts[..i])
    {
      PayloadNext(parts, i);
      PayloadGrows(parts, i + 1);
      InfosPrefix(parts, i);
      CopyLayer(a, infos[i], parts[i]);
    }
    assert parts[..|parts|] == parts;
    payload := a[..];
  }

  /** The table entry of a layer depends on the layers up to it only. */
  lemma {:induction false} InfosPrefix(parts: seq<Part>, i: nat)
    requires i < |parts|
    ensures Infos(parts)[i] ==
      LayerInfo(|Payload(parts[..i])|, |parts[i].k|, |Payload(parts[..i])| + |parts[i].k|, |parts[i].v|)
  {
    if i < |parts| - 1 {
      InfosPrefix(parts[..|parts| - 1], i);
      assert parts[..|parts| - 1][..i] == parts[..i];
    } else {
      assert parts[..|parts| - 1] == parts[..i];
    }
  }

  /** What restoring layer l from a blob gives; None where it raises. */
  function RestoredFrom(layer: LayerCache, blob: Bytes, l: nat, layers: nat, table: seq<nat>): Option<LayerCache>
    requires l < layers && HEADER_SIZE + layers * LAYER_SIZE <= |blob|
  {
    RestoredLayer(layer, InfoIn(blob, l), PayloadIn(blob, layers), table)
  }

  /** The first n layers have been restored, and the rest are as before. */
  ghost predicate RestoredUpTo(now: seq<LayerCache>, before: seq<LayerCache>, blob: Bytes, table: seq<nat>, n: nat)
    requires HEADER_SIZE + |before| * LAYER_SIZE <= |blob|
  {
    && n <= |now| == |before| && now[n..] == before[n..]
    && forall l :: 0 <= l < n ==> RestoredFrom(before[l], blob, l, |before|, table) == Some(now[l])
  }

  /** No layer raises. */
  ghost predicate NoneRaises(before: seq<LayerCache>, blob: Bytes, table: seq<nat>)
    requires HEADER_SIZE + |before| * LAYER_SIZE <= |blob|
  {
    forall l :: 0 <= l < |before| ==> RestoredFrom(before[l], blob, l, |before|, table).Some?
  }

  /** Restoring one more layer. */
  lemma RestoredNext(now: seq<LayerCache>, before: seq<LayerCache>, blob: Bytes, table: seq<nat>, n: nat)
    requires HEADER_SIZE + |before| * LAYER_SIZE <= |blob| && RestoredUpTo(now, before, blob, table, n) && n < |now|
    ensures now[n] == before[n]
    ensures var r := RestoredFrom(now[n], blob, n, |before|, table);
      r.Some? ==> RestoredUpTo(now[n := r.value], before, blob, table, n + 1)
  {
    assert now[n] == now[n..][0] == before[n..][0];
    var r := RestoredFrom(now[n], blob, n, |before|, table);
    if r.Some? {
      assert now[n := r.value][n + 1..] == now[n..][1..] && before[n + 1..] == before[n..][1..];
    }
  }

  ghost predicate AllFitInto(cache: seq<LayerCache>, table: seq<nat>, into: seq<LayerCache>, table': seq<nat>) {
    |into| == |cache| && forall l :: 0 <= l < |cache| ==> FitsInto(cache[l], table, into[l], table')
  }

  ghost predicate AllMoved(cache: seq<LayerCache>, table: seq<nat>, into: seq<LayerCache>, now: seq<LayerCache>,
                           table': seq<nat>)
  {
    |now| == |into| == |cache| && forall l :: 0 <= l < |cache| ==> Moved(cache[l], table, into[l], now[l], table')
  }

  /** A saved cache can be restored into any cache of the same shape where its blocks fit. */
  lemma {:induction false} CacheRestores(h: Header, cache: seq<LayerCache>, table: seq<nat>, into: seq<LayerCache>,
                                         table': seq<nat>)
    requires TableOk(cache, table) && AllFitInto(cache, table, into, table')
    requires Packable(h, Parts(cache, table)) && h.magic == MAGIC && h.version == VERSION
    ensures
      var blob := Blob(h, Parts(cache, table));
      Readable(blob, |into|) && HeaderIn(blob) == h && NoneRaises(into, blob, table')
  {
    ParseBlob(h, Parts(cache, table));
    forall l | 0 <= l < |cache|
      ensures RestoredFrom(into[l], Blob(h, Parts(cache, table)), l, |into|, table').Some?
    {
      LayerRoundTrip(h, cache, table, l, into[l], table');
    }
  }

  /** Once all its layers are restored, the whole saved cache has been moved. */
  lemma {:induction false} CacheRoundTrip(h: Header, cache: seq<LayerCache>, table: seq<nat>, into: seq<LayerCache>,
                                          now: seq<LayerCache>, table': seq<nat>)
    requires TableOk(cache, table) && AllFitInto(cache, table, into, table')
    requires Packable(h, Parts(cache, table)) && h.magic == MAGIC && h.version == VERSION
    requires
      var blob := Blob(h, Parts(cache, table));
      Readable(blob, |into|) && RestoredUpTo(now, into, blob, table', |into|)
    ensures AllMoved(cache, table, into, now, table')
  {
    forall l | 0 <= l < |cache|
      ensures Moved(cache[l], table, into[l], now[l], table')
    {
      LayerRoundTrip(h, cache, table, l, into[l], table');
      assert RestoredFrom(into[l], Blob(h, Parts(cache, table)), l, |into|, table') == Some(now[l]);
    }
  }

  /** The header written for the given parts. */
  function HeaderFor(parts: seq<Part>, nTokens: nat, nKvHeads: nat, headDim: nat, dtype: nat, modelHash: nat,
                     prefixHash: nat): Header
  {
    Header(MAGIC, VERSION, |parts|, nTokens, nKvHeads, headDim, dtype, 0, |Payload(parts)|, modelHash, prefixHash)
  }

  datatype Outcome = Restored(nTokens: nat) | Miss | Raised

  class AmfKvManager {
    var gpuCache: seq<LayerCache>

    /** The blocks of one sequence, layer by layer; None where a listed block does not exist. */
    method GatherParts(table: seq<nat>) returns (parts: Option<seq<Part>>)
      ensures parts.Some? <==> TableOk(gpuCache, table)
      ensures parts.Some? ==> parts.value == Parts(gpuCache, table)
    {
      var done := [];
      for l := 0 to |gpuCache|
        invariant |done| == l &&
          forall j :: 0 <= j < l ==> InRange(table, |gpuCache[j].k|) && InRange(table, |gpuCache[j].v|)
        invariant forall j :: 0 <= j < l ==> done[j] == PartOf(gpuCache[j], table)
      {
        if !InRange(table, |gpuCache[l].k|) || !InRange(table, |gpuCache[l].v|) { return None; }
        done := done + [PartOf(gpuCache[l], table)];
      }
      assert done == Parts(gpuCache, table);
      parts := Some(done);
    }

    /** save_kv_state up to the file: the blob, or None when there is nothing to save or something raises. */
    method Save(table: seq<nat>, nTokens: nat, nKvHeads: nat, headDim: nat, dtype: nat, modelHash: nat, prefixHash: nat)
      returns (blob: Option<Bytes>)
      ensures blob.Some? ==> gpuCache != [] && TableOk(gpuCache, table)
      ensures gpuCache != [] && TableOk(gpuCache, table) ==> (blob.Some? <==>
        Packable(HeaderFor(Parts(gpuCache, table), nTokens, nKvHeads, headDim, dtype, modelHash, prefixHash),
                 Parts(gpuCache, table)))
      ensures blob.Some? ==>
        blob.value == Blob(HeaderFor(Parts(gpuCache, table), nTokens, nKvHeads, headDim, dtype, modelHash, prefixHash),
                           Parts(gpuCache, table))
    {
      if gpuCache == [] { return None; }
      var gathered := GatherParts(table);
      if gathered.None? { return None; }
      var parts := gathered.value;
      var infos, total := LayOut(parts);
      var h := Header(MAGIC, VERSION, |gpuCache|, nTokens, nKvHeads, headDim, dtype, 0, total, modelHash, prefixHash);
      if !Fits(HeaderFields(h)) { return None; }
      var tbl := PackTable(infos);
      if tbl.None? { return None; }
      var payload := FillPayload(parts, infos, total);
      blob := Some(Pack(HeaderFields(h)) + tbl.value + payload);
    }

    /**
     restore_kv_state from the blob: a miss touches nothing, and success restores every layer.
     An exception leaves the layers before the offending one restored and the rest untouched.
     */
    method Restore(blob: Bytes, table: seq<nat>) returns (r: Outcome)
      modifies this
      ensures r.Miss? <==> !Readable(blob, |old(gpuCache)|)
      ensures r.Miss? ==> gpuCache == old(gpuCache)
      ensures r.Restored? <==> Readable(blob, |old(gpuCache)|) && NoneRaises(old(gpuCache), blob, table)
      ensures r.Restored? ==>
        r.nTokens == HeaderIn(blob).nTokens && RestoredUpTo(gpuCache, old(gpuCache), blob, table, |gpuCache|)
      ensures r.Raised? ==>
        exists l :: 0 <= l < |old(gpuCache)| && RestoredUpTo(gpuCache, old(gpuCache), blob, table, l) &&
                                        RestoredFrom(old(gpuCache)[l], blob, l, |old(gpuCache)|, table) == None
    {
      if |blob| < HEADER_SIZE { return Miss; }
      var h := HeaderIn(blob);
      if h.magic != MAGIC { return Miss; }
      if h.version != VERSION { return Miss; }
      if h.nLayers != |gpuCache| { return Miss; }
      if |blob| < HEADER_SIZE + h.nLayers * LAYER_SIZE { return Miss; }
      var ok, at := RestoreLayers(blob, table);
      r := if ok then Restored(h.nTokens) else Raised;
    }

    /** Layer after layer, until all are restored or the one at `at` raises. */
    method RestoreLayers(blob: Bytes, table: seq<nat>) returns (ok: bool, ghost at: nat)
      requires HEADER_SIZE + |gpuCache| * LAYER_SIZE <= |blob|
      modifies this
      ensures at <= |old(gpuCache)| && RestoredUpTo(gpuCache, old(gpuCache), blob, table, at)
      ensures ok ==> at == |gpuCache|
      ensures !ok ==> at < |gpuCache| && RestoredFrom(old(gpuCache)[at], blob, at, |gpuCache|, table) == None
    {
      for l := 0 to |gpuCache|
        invariant |gpuCache| == |old(gpuCache)| && RestoredUpTo(gpuCache, old(gpuCache), blob, table, l)
      {
        RestoredNext(gpuCache, old(gpuCache), blob, table, l);
        var restored := RestoredFrom(gpuCache[l], blob, l, |gpuCache|, table);
        if restored.None? { return false, l; }
        gpuCache := gpuCache[l := restored.value];
      }
      ok, at := true, |gpuCache|;
    }
  }

  /**
   Saving a sequence from one cache and restoring it into another of the same shape, where its
   blocks fit, gives back its length and moves every block of every layer.
   */
  method Transplant(source: AmfKvManager, target: AmfKvManager, table: seq<nat>, table': seq<nat>, nTokens: nat,
                    nKvHeads: nat, headDim: nat, dtype: nat, modelHash: nat, prefixHash: nat)
    returns (r: Option<Outcome>)
    requires source != target && AllFitInto(source.gpuCache, table, target.gpuCache, table')
    modifies target
    ensures r.Some? <==>
      && source.gpuCache != [] && TableOk(source.gpuCache, table)
      && Packable(HeaderFor(Parts(source.gpuCache, table), nTokens, nKvHeads, headDim, dtype, modelHash, prefixHash),
                  Parts(source.gpuCache, table))
    ensures r.None? ==> target.gpuCache == old(target.gpuCache)
    ensures r.Some? ==> r.value == Restored(nTokens)
    ensures r.Some? ==> AllMoved(source.gpuCache, table, old(target.gpuCache), target.gpuCache, table')
  {
    var blob := source.Save(table, nTokens, nKvHeads, headDim, dtype, modelHash, prefixHash);
    if blob.None? { return None; }
    ghost var cache := source.gpuCache;
    ghost var h := HeaderFor(Parts(cache, table), nTokens, nKvHeads, headDim, dtype, modelHash, prefixHash);
    CacheRestores(h, cache, table, target.gpuCache, table');
    var restored := target.Restore(blob.value, table');
    CacheRoundTrip(h, cache, table, old(target.gpuCache), target.gpuCache, table');
    r := Some(restored);
  }

  /** The packed layer table; None when an offset or size needs more than 64 bits. */
  method PackTable(infos: seq<LayerInfo>) returns (table: Option<Bytes>)
    ensures table.Some? <==> AllFit(infos)
    ensures table.Some? ==> table.value == Table(infos)
  {
    var done := [];
    for i := 0 to |infos|
      invariant AllFit(infos[..i]) && done == Table(infos[..i])
    {
      assert infos[..i + 1][..i] == infos[..i];
      if !Fits(InfoFields(infos[i])) { return None; }
      done := done + Pack(InfoFields(infos[i]));
    }
    assert infos[..|infos|] == infos;
    table := Some(done);
  }
}
