/**
 The 64-bit FNV hashes of the AMF store and of its Python port: one xor-multiply step per byte
 of a KV blob, or per 32-bit token of a prompt.
 */
module Fnv {
  import opened Wrappers

  type Hash = bv64
  type Word = bv32     // a token as its 32-bit pattern

  const OFFSET: Hash := 1469598103934665603

  /** Xor the value in, then multiply by the FNV prime. */
  function Mix(h: Hash, v: Hash): Hash {
    (h ^ v) * 1099511628211
  }

  const MIX: (Hash, Hash) -> Hash := (h, v) => Mix(h, v)

  function FromByte(b: Byte): Hash { b as Hash }

  function FromToken(t: Word): Hash { t as Hash }

  /** The running hash h continued over vs, each value widened and mixed in. */
  function Fold<H, V>(mix: (H, H) -> H, widen: V -> H, h: H, vs: seq<V>): H {
    if vs == [] then h else mix(Fold(mix, widen, h, vs[..|vs| - 1]), widen(vs[|vs| - 1]))
  }

  /** The checksum of a blob. */
  function OfBytes(data: seq<Byte>): Hash {
    Fold(MIX, FromByte, OFFSET, data)
  }

  /** amf_hash_tokens: the prefix hash of a prompt. */
  function OfTokens(tokens: seq<Word>): Hash {
    Fold(MIX, FromToken, OFFSET, tokens)
  }

  /** Neither argument of mix is lost when the other is known. */
  ghost predicate Lossless<H(!new)>(mix: (H, H) -> H) {
    && (forall h, h', v :: mix(h, v) == mix(h', v) ==> h == h')
    && (forall h, v, v' :: mix(h, v) == mix(h, v') ==> v == v')
  }

  ghost predicate OneToOne<V(!new), H>(widen: V -> H) {
    forall a, b :: widen(a) == widen(b) ==> a == b
  }

  /** Undoes Mix: the prime is odd, so it has an inverse modulo 2^64. */
  function Unmix(m: Hash, v: Hash): Hash {
    (m * 0xce965057aff6957b) ^ v
  }

  const UNMIX: (Hash, Hash) -> Hash := (m, v) => Unmix(m, v)

  lemma PrimeInverse(x: Hash)
    ensures (x * 1099511628211) * 0xce965057aff6957b == x
  {
  }

  lemma XorTwice(h: Hash, v: Hash)
    ensures (h ^ v) ^ v == h && (h ^ v) ^ h == v
  {
  }

  lemma UnmixMix(h: Hash, v: Hash)
    ensures Unmix(Mix(h, v), v) == h
    ensures Unmix(Mix(h, v), h) == v
  {
    PrimeInverse(h ^ v);
    XorTwice(h, v);
  }

  lemma UndoableIsLossless<H(!new)>(mix: (H, H) -> H, undo: (H, H) -> H)
    requires forall h, v {:trigger mix(h, v)} :: undo(mix(h, v), v) == h && undo(mix(h, v), h) == v
    ensures Lossless(mix)
  {
  }

  lemma MixIsLossless()
    ensures Lossless(MIX)
  {
    forall h, v {:trigger MIX(h, v)}
      ensures UNMIX(MIX(h, v), v) == h && UNMIX(MIX(h, v), h) == v
    {
      UnmixMix(h, v);
    }
    UndoableIsLossless(MIX, UNMIX);
  }

  lemma WidenOneToOne()
    ensures OneToOne(FromByte) && OneToOne(FromToken)
  {
  }

  /** Different running hashes stay different over any common continuation. */
  lemma {:induction false} FoldInjective<H(!new), V>(mix: (H, H) -> H, widen: V -> H, h: H, h': H, vs: seq<V>)
    requires Lossless(mix) && Fold(mix, widen, h, vs) == Fold(mix, widen, h', vs)
    ensures h == h'
  {
    if vs != [] {
      FoldInjective(mix, widen, h, h', vs[..|vs| - 1]);
    }
  }

  lemma {:induction false} FoldConcat<H, V>(mix: (H, H) -> H, widen: V -> H, h: H, a: seq<V>, b: seq<V>)
    ensures Fold(mix, widen, h, a + b) == Fold(mix, widen, Fold(mix, widen, h, a), b)
  {
    if b == [] {
      assert a + b == a;
    } else {
      FoldConcat(mix, widen, h, a, b[..|b| - 1]);
      assert (a + b)[..|a + b| - 1] == a + b[..|b| - 1];
    }
  }

  /** Changing exactly one value always changes the hash. */
  lemma OneChange<H(!new), V(!new)>(mix: (H, H) -> H, widen: V -> H, h: H, vs: seq<V>, i: nat, v: V)
    requires Lossless(mix) && OneToOne(widen) && i < |vs| && vs[i] != v
    ensures Fold(mix, widen, h, vs) != Fold(mix, widen, h, vs[i := v])
  {
    var ws := vs[i := v];
    var pre, post := vs[..i], vs[i + 1..];
    assert vs == pre + [vs[i]] + post && ws == pre + [v] + post;
    assert (pre + [vs[i]])[..i] == pre && (pre + [v])[..i] == pre;
    FoldConcat(mix, widen, h, pre + [vs[i]], post);
    FoldConcat(mix, widen, h, pre + [v], post);
    if Fold(mix, widen, h, vs) == Fold(mix, widen, h, ws) {
      FoldInjective(mix, widen, Fold(mix, widen, h, pre + [vs[i]]), Fold(mix, widen, h, pre + [v]), post);
    }
  }

  /** No corruption of a single byte goes unnoticed by the checksum. */
  lemma OneByte(data: seq<Byte>, i: nat, b: Byte)
    requires i < |data| && data[i] != b
    ensures OfBytes(data) != OfBytes(data[i := b])
  {
    MixIsLossless();
    WidenOneToOne();
    OneChange(MIX, FromByte, OFFSET, data, i, b);
  }

  /** Prompts of equal length that differ in one token have different prefix hashes. */
  lemma OneToken(tokens: seq<Word>, i: nat, t: Word)
    requires i < |tokens| && tokens[i] != t
    ensures OfTokens(tokens) != OfTokens(tokens[i := t])
  {
    MixIsLossless();
    WidenOneToOne();
    OneChange(MIX, FromToken, OFFSET, tokens, i, t);
  }

  /** hash_bytes and its like: one pass over the values, mixing each into the running hash. */
  method RunningHash<H, V>(mix: (H, H) -> H, widen: V -> H, offset: H, vs: seq<V>) returns (h: H)
    ensures h == Fold(mix, widen, offset, vs)
  {
    h := offset;
    for i := 0 to |vs|
      invariant h == Fold(mix, widen, offset, vs[..i])
    {
      assert vs[..i + 1][..i] == vs[..i];
      h := mix(h, widen(vs[i]));
    }
    assert vs[..|vs|] == vs;
  }

  /** The rolling hashes of all prefixes agree with hashing each prefix from scratch. */
  method PrefixHashes<H, V>(mix: (H, H) -> H, widen: V -> H, offset: H, vs: seq<V>) returns (hashes: seq<H>)
    ensures |hashes| == |vs|
    ensures forall n :: 0 < n <= |vs| ==> hashes[n - 1] == Fold(mix, widen, offset, vs[..n])
  {
    hashes := [];
    var h := offset;
    for i := 0 to |vs|
      invariant |hashes| == i && h == Fold(mix, widen, offset, vs[..i])
      invariant forall n :: 0 < n <= i ==> hashes[n - 1] == Fold(mix, widen, offset, vs[..n])
    {
      assert vs[..i + 1][..i] == vs[..i];
      h := mix(h, widen(vs[i]));
      hashes := hashes + [h];
    }
  }
}
