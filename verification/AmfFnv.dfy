/** Inputs at which FNV lets the store down: a collision that misleads a lookup, and a checksum of zero. */
module AmfFnv {
  import opened Wrappers
  import opened Fnv
  import opened Llama
  import opened AmfModel
  import opened AmfStorage

  lemma FoldNext<H, V>(mix: (H, H) -> H, widen: V -> H, h: H, vs: seq<V>, v: V)
    ensures Fold(mix, widen, h, vs + [v]) == mix(Fold(mix, widen, h, vs), widen(v))
  {
    assert (vs + [v])[..|vs|] == vs;
  }

  /** A hasher that mixes as FNV does, whatever it makes of tokens. */
  ghost predicate MixesFnv(h: Hasher<Hash>) {
    h.mix == MIX && h.offset == OFFSET
  }

  /** Two tokens with the patterns x and y, hashed after `tokens`. */
  lemma TwoTokens(h: Hasher<Hash>, tokens: seq<Token>, a: Token, b: Token, x: Hash, y: Hash, mid: Hash)
    requires MixesFnv(h) && h.ofToken(a) == x && h.ofToken(b) == y && Mix(h.Tokens(tokens), x) == mid
    ensures h.Tokens(tokens + [a, b]) == Mix(mid, y)
  {
    FoldNext(h.mix, h.ofToken, h.offset, tokens, a);
    FoldNext(h.mix, h.ofToken, h.offset, tokens + [a], b);
    assert tokens + [a] + [b] == tokens + [a, b];
  }

  /** The patterns 788529159, 1 and 2147483648, 2902462164 and the latter followed by 764757858, 3848362178. */
  lemma CollisionOf(h: Hasher<Hash>, a: Token, b: Token, c: Token, d: Token, e: Token, f: Token)
    requires MixesFnv(h) && h.ofToken(a) == 788529159 && h.ofToken(b) == 1
    requires h.ofToken(c) == 2147483648 && h.ofToken(d) == 2902462164
    requires h.ofToken(e) == 764757858 && h.ofToken(f) == 3848362178
    ensures h.Tokens([a, b]) == h.Tokens([c, d]) == h.Tokens([c, d, e, f])
  {
    TwoTokens(h, [], a, b, 788529159, 1, 4953164288308869452);
    TwoTokens(h, [], c, d, 2147483648, 2902462164, 4953164290808674201);
    assert [] + [a, b] == [a, b] && [] + [c, d] == [c, d];
    assert h.Tokens([c, d]) == 11127329905674264023;
    TwoTokens(h, [c, d], e, f, 764757858, 3848362178, 4953164289867096463);
    assert [c, d] + [e, f] == [c, d, e, f];
  }

  /** Some token has this pattern. */
  ghost predicate Reaches(h: Hasher<Hash>, w: Word) {
    exists t :: h.ofToken(t) == FromToken(w)
  }

  lemma EveryPattern(w: Word)
    ensures Reaches(FNV, w)
  {
    var t := TokenOf(w);
    assert FNV.ofToken(t) == FromToken(w);
  }

  lemma CollisionIn(h: Hasher<Hash>) returns (first: seq<Token>, second: seq<Token>, third: seq<Token>)
    requires MixesFnv(h) && Reaches(h, 788529159) && Reaches(h, 1) && Reaches(h, 2147483648)
    requires Reaches(h, 2902462164) && Reaches(h, 764757858) && Reaches(h, 3848362178)
    ensures |first| == 2 && first != second && |third| == 4 && second == third[..2]
    ensures h.Tokens(first) == h.Tokens(second) == h.Tokens(third)
  {
    var a :| h.ofToken(a) == FromToken(788529159);
    var b :| h.ofToken(b) == FromToken(1);
    var c :| h.ofToken(c) == FromToken(2147483648);
    var d :| h.ofToken(d) == FromToken(2902462164);
    var e :| h.ofToken(e) == FromToken(764757858);
    var f :| h.ofToken(f) == FromToken(3848362178);
    CollisionOf(h, a, b, c, d, e, f);
    first, second, third := [a, b], [c, d], [c, d, e, f];
  }

  /** Two prompts, and a longer one that starts with the second, all with one prefix hash. */
  lemma Collision() returns (first: seq<Token>, second: seq<Token>, third: seq<Token>)
    ensures |first| == 2 && first != second && |third| == 4 && second == third[..2]
    ensures FNV.Tokens(first) == FNV.Tokens(second) == FNV.Tokens(third)
  {
    EveryPattern(788529159);
    EveryPattern(1);
    EveryPattern(2147483648);
    EveryPattern(2902462164);
    EveryPattern(764757858);
    EveryPattern(3848362178);
    first, second, third := CollisionIn(FNV);
  }

  /**
   The first prompt was stored, and a write of the third, which has the same key, stopped after
   two tokens. Looking up the second then hits, and loads what was stored for the first.
   */
  lemma MisledHit(ctx: Context, e: Entry<Hash>, kv: seq<Byte>, kv': seq<Byte>)
    returns (first: seq<Token>, second: seq<Token>, third: seq<Token>)
    requires kv != [] && e.checksum == FNV.Bytes(kv) && e.prefixLen == 2
    ensures first != second && |third| == 4 && KeyOf(FNV, ctx, third) == KeyOf(FNV, ctx, first)
    ensures
      var key := KeyOf(FNV, ctx, first);
      var entry, toks, kvs := e.(key := key), map[key := third[..2]], map[key := kv];
      && Filed(FNV, ctx, second, 2, entry)
      && Verdict(toks, entry, second) == Hit(entry, second)
      && Accepts(FNV, entry, kvs[key])
      && !Trusted(FNV, entry, toks, kvs, {Offer(key, first, kv), Offer(key, third, kv')})
  {
    first, second, third := Collision();
    assert second[..2] == second;
  }

  lemma Mixed(data: seq<Byte>, n: nat, h: Hash)
    requires n < |data| && OfBytes(data[..n]) == h
    ensures OfBytes(data[..n + 1]) == Mix(h, FromByte(data[n]))
  {
    FoldNext(MIX, FromByte, OFFSET, data[..n], data[n]);
    assert data[..n] + [data[n]] == data[..n + 1];
  }

  const UNCHECKED: seq<Byte> := [128, 126, 49, 5, 140, 115, 94, 4]

  lemma HalfChecksum()
    ensures OfBytes(UNCHECKED[..4]) == 15582863140264292411
  {
    Mixed(UNCHECKED, 0, 1469598103934665603);
    Mixed(UNCHECKED, 1, 4953022619164876313);
    Mixed(UNCHECKED, 2, 11004089395439970565);
    Mixed(UNCHECKED, 3, 6165437015727047516);
  }

  /** A blob whose checksum is zero, so that nothing read in its place is checked. */
  lemma ZeroChecksum()
    ensures OfBytes(UNCHECKED) == 0
  {
    HalfChecksum();
    Mixed(UNCHECKED, 4, 15582863140264292411);
    Mixed(UNCHECKED, 5, 8243815002882164469);
    Mixed(UNCHECKED, 6, 4204463602328556978);
    Mixed(UNCHECKED, 7, 4);
    assert UNCHECKED[..8] == UNCHECKED;
  }
}
