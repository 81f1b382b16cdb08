/**
 The C API's prompt evaluation over the AMF store: a prompt is decoded in batches, or a stored
 state of its longest known prefix is loaded and only the rest is decoded.

 A decode or a state load may fail. A failed decode leaves the cache as it was; a failed load
 leaves the cache that has just been cleared empty.
 */
module WarmStart {
  import opened Wrappers
  import opened Llama
  import opened AmfModel
  import opened AmfStorage

  /** What a state blob captures: the KV cells and the row of logits last computed. */
  datatype Snapshot = Snapshot(cells: seq<Cell>, logits: Option<Logits>)

  /** llama_state_get_data and llama_state_set_data. */
  datatype Codec = Codec(encode: Snapshot -> seq<Byte>, decode: seq<Byte> -> Option<Snapshot>)

  /** The state reached by decoding a whole prompt into an empty cache. */
  function ColdState(net: Net, tokens: seq<Token>): Snapshot {
    Snapshot(Cells(tokens), Some(net(Cells(tokens))))
  }

  /** Every state that a prompt leads to is read back as it was written. */
  ghost predicate RoundTrips(net: Net, c: Codec) {
    forall tokens :: c.decode(c.encode(ColdState(net, tokens))) == Some(ColdState(net, tokens))
  }

  /** A number in unary: its sign once for each unit, and a terminator. */
  function Unary(t: Token): seq<Byte>
    decreases if t < 0 then -t else t
  {
    if t == 0 then [0] else if t > 0 then [1] + Unary(t - 1) else [2] + Unary(t + 1)
  }

  function Written(tokens: seq<Token>): seq<Byte> {
    if tokens == [] then [] else Unary(tokens[0]) + Written(tokens[1..])
  }

  function ReadBack(bytes: seq<Byte>, sum: Token): seq<Token> {
    if bytes == [] then []
    else if bytes[0] == 0 then [sum] + ReadBack(bytes[1..], 0)
    else ReadBack(bytes[1..], if bytes[0] == 1 then sum + 1 else sum - 1)
  }

  lemma {:induction false} ReadUnary(t: Token, rest: seq<Byte>, sum: Token)
    ensures ReadBack(Unary(t) + rest, sum) == [sum + t] + ReadBack(rest, 0)
    decreases if t < 0 then -t else t
  {
    assert (Unary(t) + rest)[1..] == Unary(t)[1..] + rest;
    if t > 0 {
      ReadUnary(t - 1, rest, sum + 1);
    } else if t < 0 {
      ReadUnary(t + 1, rest, sum - 1);
    }
  }

  lemma {:induction false} ReadWritten(tokens: seq<Token>)
    ensures ReadBack(Written(tokens), 0) == tokens
  {
    if tokens != [] {
      ReadUnary(tokens[0], Written(tokens[1..]), 0);
      ReadWritten(tokens[1..]);
    }
  }

  /** The tokens of some cells, in order. */
  function TokensOf(cells: seq<Cell>): seq<Token> {
    seq(|cells|, i requires 0 <= i < |cells| => cells[i].token)
  }

  /** Whatever the model, some codec reads back every state that a prompt leads to. */
  lemma SomeCodec(net: Net) returns (c: Codec)
    ensures RoundTrips(net, c)
  {
    c := Codec((s: Snapshot) => Written(TokensOf(s.cells)), bytes => Some(ColdState(net, ReadBack(bytes, 0))));
    forall tokens
      ensures c.decode(c.encode(ColdState(net, tokens))) == Some(ColdState(net, tokens))
    {
      assert TokensOf(Cells(tokens)) == tokens;
      ReadWritten(tokens);
    }
  }

  /** One token of a batch: where it goes, and whether its row of logits is wanted. */
  datatype Slot = Slot(token: Token, pos: int, wanted: bool)

  function BatchCells(batch: seq<Slot>): (c: seq<Cell>)
    ensures |c| == |batch| && forall i :: 0 <= i < |c| ==> c[i] == Cell(batch[i].pos, batch[i].token)
  {
    seq(|batch|, i requires 0 <= i < |batch| => Cell(batch[i].pos, batch[i].token))
  }

  /** The row of the last slot that wants one; a token attends to the cache and to its batch up to itself. */
  function RowFor(net: Net, cells: seq<Cell>, batch: seq<Slot>): Option<Logits> {
    if batch == [] then None
    else if batch[|batch| - 1].wanted then Some(net(cells + BatchCells(batch)))
    else RowFor(net, cells, batch[..|batch| - 1])
  }

  /** A cache after the first n tokens were decoded from a position on. */
  function Decoded(cells: seq<Cell>, start: int, tokens: seq<Token>, n: nat): seq<Cell>
    requires n <= |tokens|
  {
    cells + CellsFrom(start, tokens[..n])
  }

  lemma ChunkAppend(cells: seq<Cell>, start: int, tokens: seq<Token>, idx: nat, chunk: nat, now: seq<Cell>)
    requires idx + chunk <= |tokens|
    requires now == Decoded(cells, start, tokens, idx) + CellsFrom(start + idx, tokens[idx..idx + chunk])
    ensures now == Decoded(cells, start, tokens, idx + chunk)
  {
  }

  /** Everything offered for a context is the state of a cold decode of the tokens it was offered for. */
  ghost predicate Faithful<D(!new)>(net: Net, codec: Codec, ctx: Context, offers: set<Offer<D>>) {
    forall o :: o in offers && o.key.ctx == ctx ==> o.bytes == codec.encode(ColdState(net, o.tokens))
  }

  /** A prompt whose key is already the key of a proper prefix of it. */
  ghost predicate SelfCollides<D>(h: Hasher<D>, tokens: seq<Token>) {
    exists n :: 0 <= n < |tokens| && h.Tokens(tokens[..n]) == h.Tokens(tokens)
  }

  /** What went wrong with a write can leave the prompt's key suspect. */
  ghost predicate Spoils<D>(h: Hasher<D>, tokens: seq<Token>, fault: Fault) {
    match fault
    case NoFault => false
    case TornTokens(_) => SelfCollides(h, tokens)
    case TornKv(_, removed) => !removed
    case Dangling => true
  }

  /** ensure_capacity_and_decode refuses this many tokens without decoding any. */
  predicate Refuses(nCtx: nat, nBatch: int, len: nat) {
    (nCtx > 0 && len >= nCtx) || nBatch <= 0
  }

  /** The same after a prefix of the tokens was loaded: only the rest, if any, is decoded. */
  predicate RefusesRest(nCtx: nat, nBatch: int, len: nat, loaded: nat)
    requires loaded <= len
  {
    loaded < len && Refuses(nCtx, nBatch, len - loaded)
  }

  /**
   A loaded prefix never makes a prompt refused. It makes a refused one pass exactly when the rest
   alone fits the context, or when there is no rest and so no batch is needed.
   */
  lemma CapacityVerdicts(nCtx: nat, nBatch: int, len: nat, loaded: nat)
    requires loaded <= len
    ensures RefusesRest(nCtx, nBatch, len, loaded) ==> Refuses(nCtx, nBatch, len)
    ensures (Refuses(nCtx, nBatch, len) <==> RefusesRest(nCtx, nBatch, len, loaded)) <==>
            if nBatch > 0 then nCtx == 0 || len < nCtx || len - loaded >= nCtx else loaded < len
  {
  }

  lemma HitGone<D>(es: seq<Entry<D>>, index: map<Key<D>, nat>, es': seq<Entry<D>>, index': map<Key<D>, nat>, i: nat)
    requires Indexed(es, index) && Indexed(es', index') && i < |es| && es' == RemoveAt(es, i)
    ensures es[i].key !in index'
  {
  }

  /** How the store's part of a prompt ended. */
  datatype Warmth = Warmed | Missed | Failed

  class Korith<D(==, !new)> {
    const net: Net
    const nCtx: nat
    const nBatch: int
    const codec: Codec
    const tokenizer: string -> seq<Token>
    const bos: Token
    const store: AmfStore<D>
    const amfReady: bool
    const amfCtx: Context

    var loaded: bool
    var cells: seq<Cell>
    var logits: Option<Logits>
    var pos: int
    var ready: bool
    var finished: bool

    ghost var decodeFaults: nat      // decodes that have failed
    ghost var stateFaults: nat       // loads and reads of a state that have failed

    ghost predicate Valid()
      reads this, store
    {
      store.Valid() && RoundTrips(net, codec) && Faithful(net, codec, amfCtx, store.offers)
    }

    constructor (net: Net, nCtx: nat, nBatch: int, codec: Codec, tokenizer: string -> seq<Token>, bos: Token,
                 store: AmfStore<D>, amfReady: bool, amfCtx: Context)
      requires store.Valid() && store.offers == {} && RoundTrips(net, codec)
      ensures Valid() && this.net == net && this.store == store && !ready && finished && loaded
      ensures this.nCtx == nCtx && this.nBatch == nBatch && this.codec == codec && this.amfReady == amfReady
    {
      this.net, this.nCtx, this.nBatch, this.codec, this.tokenizer, this.bos :=
        net, nCtx, nBatch, codec, tokenizer, bos;
      this.store, this.amfReady, this.amfCtx := store, amfReady, amfCtx;
      loaded, cells, logits, pos, ready, finished := true, [], None, 0, false, true;
      decodeFaults, stateFaults := 0, 0;
    }

    /** The decoder holds exactly these tokens. */
    ghost predicate Holds(tokens: seq<Token>)
      reads this
    {
      cells == Cells(tokens) && pos == |tokens|
    }

    /** The decoder is where a cold decode of these tokens would have left it. */
    ghost predicate AsIfCold(tokens: seq<Token>)
      reads this
    {
      Holds(tokens) && Snapshot(cells, logits) == ColdState(net, tokens)
    }

    /** llama_decode, which takes no more than the batch size at once. */
    method Decode(batch: seq<Slot>) returns (ok: bool)
      requires |batch| <= nBatch
      modifies this`cells, this`logits, this`decodeFaults
      ensures ok ==> cells == old(cells) + BatchCells(batch) && logits == RowFor(net, old(cells), batch)
      ensures !ok ==> cells == old(cells)
      ensures decodeFaults == if ok then old(decodeFaults) else old(decodeFaults) + 1
    {
      ok := *;
      if ok {
        logits := RowFor(net, cells, batch);
        cells := cells + BatchCells(batch);
      } else {
        decodeFaults := decodeFaults + 1;
      }
    }

    /** Fills the batch with a chunk of the tokens; only the very last token wants logits. */
    method FillBatch(tokens: seq<Token>, idx: nat, chunk: nat) returns (batch: seq<Slot>)
      requires idx + chunk <= |tokens|
      ensures BatchCells(batch) == CellsFrom(pos, tokens[idx..idx + chunk])
      ensures forall i :: 0 <= i < |batch| ==> (batch[i].wanted <==> idx + i + 1 == |tokens|)
    {
      batch := [];
      for i := 0 to chunk
        invariant |batch| == i
        invariant forall j :: 0 <= j < i ==> batch[j] == Slot(tokens[idx + j], pos + j, idx + j + 1 == |tokens|)
      {
        var t := idx + i;
        batch := batch + [Slot(tokens[t], pos + i, t + 1 == |tokens|)];
      }
    }

    /** Decodes one chunk at the current position. */
    method DecodeChunk(tokens: seq<Token>, idx: nat, chunk: nat) returns (ok: bool)
      requires 0 < chunk <= nBatch && idx + chunk <= |tokens|
      modifies this`cells, this`logits, this`pos, this`decodeFaults
      ensures ok ==> cells == old(cells) + CellsFrom(old(pos), tokens[idx..idx + chunk]) && pos == old(pos) + chunk
      ensures ok && idx + chunk == |tokens| ==> logits == Some(net(cells))
      ensures !ok ==> cells == old(cells) && pos == old(pos)
      ensures decodeFaults == if ok then old(decodeFaults) else old(decodeFaults) + 1
    {
      var batch := FillBatch(tokens, idx, chunk);
      ok := Decode(batch);
      if ok {
        pos := pos + chunk;
      }
    }

    /**
     ensure_capacity_and_decode: on success the tokens follow what the cache held, however they
     were chunked, and if there were any, the logits are those after the last one. It fails exactly
     when it refuses the tokens, changing nothing, or a decode fails.
     */
    method EnsureCapacityAndDecode(tokens: seq<Token>) returns (ok: bool)
      modifies this`cells, this`logits, this`pos, this`decodeFaults
      ensures ok <==> !Refuses(nCtx, nBatch, |tokens|) && decodeFaults == old(decodeFaults)
      ensures Refuses(nCtx, nBatch, |tokens|) ==>
        cells == old(cells) && logits == old(logits) && pos == old(pos) && decodeFaults == old(decodeFaults)
      ensures ok ==> cells == old(cells) + CellsFrom(old(pos), tokens) && pos == old(pos) + |tokens|
      ensures ok && tokens != [] ==> logits == Some(net(cells))
      ensures old(decodeFaults) <= decodeFaults <= old(decodeFaults) + 1
    {
      if nCtx > 0 && |tokens| >= nCtx { return false; }
      if nBatch <= 0 { return false; }
      var idx := 0;
      while idx < |tokens|
        invariant idx <= |tokens| && pos == old(pos) + idx && decodeFaults == old(decodeFaults)
        invariant cells == Decoded(old(cells), old(pos), tokens, idx)
        invariant 0 < idx == |tokens| ==> logits == Some(net(cells))
      {
        var chunk := if nBatch < |tokens| - idx then nBatch else |tokens| - idx;
        ok := DecodeChunk(tokens, idx, chunk);
        if !ok { return; }
        ChunkAppend(old(cells), old(pos), tokens, idx, chunk, cells);
        idx := idx + chunk;
      }
      assert tokens[..idx] == tokens;
      ok := true;
    }

    /** llama_state_set_data on a cleared context; it may fail on any bytes, and does on those that are no state. */
    method SetData(blob: seq<Byte>) returns (ok: bool)
      modifies this`cells, this`logits, this`stateFaults
      ensures ok <==> codec.decode(blob).Some? && stateFaults == old(stateFaults)
      ensures old(stateFaults) <= stateFaults
      ensures ok ==> codec.decode(blob) == Some(Snapshot(cells, logits))
      ensures !ok ==> cells == old(cells)
    {
      var s := codec.decode(blob);
      if s.None? { return false; }
      ok := *;
      if ok {
        cells, logits := s.value.cells, s.value.logits;
      } else {
        stateFaults := stateFaults + 1;
      }
    }

    /** llama_state_get_data: the state as bytes; None when there are none or the read fails. */
    method GetData() returns (blob: Option<seq<Byte>>)
      modifies this`stateFaults
      ensures blob.Some? <==> codec.encode(Snapshot(cells, logits)) != [] && stateFaults == old(stateFaults)
      ensures blob.Some? ==> blob.value == codec.encode(Snapshot(cells, logits))
      ensures old(stateFaults) <= stateFaults
    {
      var bytes := codec.encode(Snapshot(cells, logits));
      if bytes == [] { return None; }
      var got: bool := *;
      if got { return Some(bytes); }
      stateFaults := stateFaults + 1;
      blob := None;
    }

    /** reset_runtime_state, which leaves the cache alone. */
    method Reset()
      modifies this`pos, this`ready, this`finished
      ensures pos == 0 && !ready && finished
    {
      pos, ready, finished := 0, false, true;
    }

    /** The KV file of an entry can be read, its checksum agrees, and it is a state. */
    ghost predicate Loadable(entry: Entry<D>, kvs: map<Key<D>, seq<Byte>>)
      reads this
    {
      entry.key in kvs && Accepts(store.hash, entry, kvs[entry.key]) && codec.decode(kvs[entry.key]).Some?
    }

    /**
     Loads a hit and decodes the rest of the prompt. What is loaded escapes the capacity test, so
     the rest alone decides it.
     */
    method Restore(tokens: seq<Token>, entry: Entry<D>) returns (r: Warmth)
      requires Valid() && Holds([]) && entry.prefixLen <= |tokens|
      modifies this`cells, this`logits, this`pos, this`ready, this`finished, this`decodeFaults, this`stateFaults
      ensures r.Missed? <==> !Loadable(entry, store.kvFiles) || stateFaults > old(stateFaults)
      ensures r.Missed? ==> Holds([]) && decodeFaults == old(decodeFaults)
      ensures r.Failed? ==> !ready
      ensures !r.Missed? ==>
        (r.Warmed? <==> !RefusesRest(nCtx, nBatch, |tokens|, entry.prefixLen) && decodeFaults == old(decodeFaults))
      ensures r.Warmed? && LoadsPrefix(entry, tokens) ==> AsIfCold(tokens)
      ensures stateFaults >= old(stateFaults) && decodeFaults >= old(decodeFaults)
    {
      var blob := store.LoadKv(entry);
      if blob.None? { return Missed; }
      var ok := SetData(blob.value);
      if !ok { return Missed; }
      pos := entry.prefixLen;
      if entry.prefixLen < |tokens| {
        CellsAppend(tokens[..entry.prefixLen], tokens[entry.prefixLen..]);
        assert tokens[..entry.prefixLen] + tokens[entry.prefixLen..] == tokens;
        ok := EnsureCapacityAndDecode(tokens[entry.prefixLen..]);
        if !ok {
          Reset();
          return Failed;
        }
      } else {
        assert tokens[..entry.prefixLen] == tokens;
      }
      r := Warmed;
    }

    /** The KV file of an entry is the cold state of the prompt's first tokens. */
    ghost predicate LoadsPrefix(entry: Entry<D>, tokens: seq<Token>)
      reads store
      requires entry.prefixLen <= |tokens|
    {
      entry.key in store.kvFiles && store.kvFiles[entry.key] == codec.encode(ColdState(net, tokens[..entry.prefixLen]))
    }

    /** The entry is filed under the first tokens of the prompt. */
    ghost predicate OfPrefix(entry: Entry<D>, tokens: seq<Token>)
      reads this
    {
      entry.prefixLen <= |tokens| && entry.key == KeyOf(store.hash, amfCtx, tokens[..entry.prefixLen])
    }

    /** An answer of the store that can be loaded. */
    ghost predicate Serves(answer: Lookup<D>, kvs: map<Key<D>, seq<Byte>>)
      reads this
    {
      answer.Hit? && Loadable(answer.entry, kvs)
    }

    /**
     Looks the prompt up: what the store answers at the time `now` is found. It may be loaded for
     exactly its first tokens, unless its key is suspect.
     */
    method Find(tokens: seq<Token>) returns (found: Option<Entry<D>>, ghost now: nat)
      requires Valid()
      modifies store
      ensures Valid() && store.suspect <= old(store.suspect) && store.offers == old(store.offers)
      ensures
        var answer := old(store.Answer(amfCtx, tokens, now));
        found == if answer.Hit? then Some(answer.entry) else None
      ensures found.Some? ==> found.value in store.entries && OfPrefix(found.value, tokens)
      ensures found.Some? ==> SameFile(store.kvFiles, old(store.kvFiles), found.value.key)
      ensures found.Some? && found.value.key !in store.suspect ==> LoadsPrefix(found.value, tokens)
    {
      var clock: nat := *;
      now := clock;
      var lookup, stop := store.FindLongestPrefix(amfCtx, tokens, clock);
      if !lookup.Hit? {
        return None, now;
      }
      store.HitIsSound(amfCtx, tokens, stop, now, lookup);
      found := Some(lookup.entry);
    }

    /**
     The store's part of a prompt. `hit` is the entry that was loaded: the one the store answers
     with, if it can be loaded and the load does not fail. Then the prompt succeeds exactly when the
     rest is not refused and no decode fails, and unless the key was suspect the decoder is as if
     the prompt had been decoded cold.
     */
    method FromStore(tokens: seq<Token>) returns (r: Warmth, ghost hit: Option<Entry<D>>, ghost now: nat)
      requires Valid() && Holds([])
      modifies this`cells, this`logits, this`pos, this`ready, this`finished, this`decodeFaults, this`stateFaults, store
      ensures Valid() && store.suspect <= old(store.suspect) && store.offers == old(store.offers)
      ensures r.Missed? <==> hit.None?
      ensures r.Missed? ==> Holds([]) && decodeFaults == old(decodeFaults)
      ensures r.Failed? ==> !ready
      ensures old(stateFaults) <= stateFaults && old(decodeFaults) <= decodeFaults
      ensures
        var answer := old(store.Answer(amfCtx, tokens, now));
        && (hit.Some? <==> Serves(answer, old(store.kvFiles)) && stateFaults == old(stateFaults))
        && (hit.Some? ==> hit.value == answer.entry)
      ensures hit.Some? ==> OfPrefix(hit.value, tokens)
      ensures hit.Some? ==>
        (r.Warmed? <==> !RefusesRest(nCtx, nBatch, |tokens|, hit.value.prefixLen) && decodeFaults == old(decodeFaults))
      ensures r.Warmed? && hit.value.key !in old(store.suspect) ==> AsIfCold(tokens)
      ensures r.Warmed? ==> Credited(hit.value)
    {
      hit := None;
      var found;
      found, now := Find(tokens);
      if found.None? {
        return Missed, hit, now;
      }
      r := Restore(tokens, found.value);
      if !r.Missed? {
        hit := found;
      }
      if r.Warmed? {
        Credit(found.value);
      }
    }

    /** The store has counted a hit of this entry, or dropped it as one of low ROI. */
    ghost predicate Credited(e: Entry<D>)
      reads this, store
    {
      && (e.key !in store.index ==> DropsLowRoi(store.config))
      && (e.key in store.index ==>
            && store.index[e.key] < |store.entries|
            && var e' := store.entries[store.index[e.key]];
               e'.key == e.key && e'.hitCount == e.hitCount + 1 && e'.accessCount == e.accessCount + 1)
    }

    /** Tells the store of a restored hit, with the times measured. */
    method Credit(entry: Entry<D>)
      requires Valid() && entry in store.entries
      modifies store
      ensures Valid() && store.suspect <= old(store.suspect) && store.offers == old(store.offers)
      ensures Credited(entry)
    {
      var restoreMs: nat, savedMs: nat, now: nat := *, *, *;
      ghost var before, was := store.entries, store.index;
      ghost var i :| 0 <= i < |before| && before[i] == entry;
      store.NoteHit(entry, restoreMs, savedMs, now);
      ghost var e := Noted(store.config, entry, restoreMs, savedMs, now, store.roiDeclineStreak);
      if store.entries == before[i := e] {
        assert store.entries[i] == e;
      } else {
        HitGone(before, was, store.entries, store.index, i);
      }
    }

    /** The state of a prompt offered to the store under its key. */
    ghost function OfferOf(tokens: seq<Token>): Offer<D>
      reads this
    {
      Offer(KeyOf(store.hash, amfCtx, tokens), tokens, codec.encode(ColdState(net, tokens)))
    }

    /** Offers the state just reached to the store, which may refuse or fail. */
    method OfferState(tokens: seq<Token>) returns (ghost fault: Fault)
      requires Valid() && AsIfCold(tokens)
      modifies store, this`stateFaults
      ensures old(stateFaults) <= stateFaults
      ensures store.offers ==
        if codec.encode(ColdState(net, tokens)) != [] && stateFaults == old(stateFaults) then
          old(store.offers) + {OfferOf(tokens)}
        else old(store.offers)
      ensures !fault.Dangling? ==> Valid()
      ensures store.suspect <= old(store.suspect) || Spoils(store.hash, tokens, fault)
      ensures !fault.Dangling? ==> store.suspect <= old(store.suspect) + {KeyOf(store.hash, amfCtx, tokens)}
    {
      fault := NoFault;
      var blob := GetData();
      if blob.Some? {
        var diskOk: bool, savedMs: nat, now: nat := *, *, *;
        ghost var ok, steps, rest, first;
        ok, steps, rest, fault, first := store.StoreEntry(amfCtx, tokens, blob.value, savedMs, now, diskOk);
      }
    }

    /** The prompt as tokens; an empty one becomes the begin-of-sequence token if there is one. */
    function PromptTokens(prompt: string): (tokens: seq<Token>)
      ensures tokens == [] <==> tokenizer(prompt) == [] && bos == TOKEN_NULL
      ensures tokens == tokenizer(prompt) || (tokenizer(prompt) == [] && tokens == [bos])
    {
      if tokenizer(prompt) != [] then tokenizer(prompt) else if bos == TOKEN_NULL then [] else [bos]
    }

    /** A prompt of this many tokens gets past the capacity test, given the entry loaded for it. */
    ghost predicate Passes(len: nat, hit: Option<Entry<D>>)
      reads this
    {
      if hit.Some? then hit.value.prefixLen <= len && !RefusesRest(nCtx, nBatch, len, hit.value.prefixLen)
      else !Refuses(nCtx, nBatch, len)
    }

    /** The states offered to the store after a prompt, none of its state operations having failed. */
    ghost predicate OffersAfter(tokens: seq<Token>, n: int, hit: Option<Entry<D>>, before: set<Offer<D>>)
      reads this, store
    {
      store.offers ==
        if n >= 0 && hit.None? && amfReady && |tokens| >= store.config.minTokens &&
           codec.encode(ColdState(net, tokens)) != []
        then before + {OfferOf(tokens)} else before
    }

    /**
     korith_tokenize. `hit` is the entry loaded, exactly the store's answer at the time `now` if it
     can be loaded. The prompt succeeds exactly when a model is loaded, it has tokens, it gets past
     the capacity test and no decode fails.

     Whether the prompt was decoded whole or restored from the store, success ends in the state of a
     cold decode of the whole prompt, unless the entry restored had a suspect key. A key becomes
     suspect only by a write under it that failed, as `fault` says. What was decoded whole is offered
     to the store. Nothing is said once the store's behaviour is undefined.
     */
    method Tokenize(prompt: string) returns (n: int, ghost hit: Option<Entry<D>>, ghost now: nat, ghost fault: Fault)
      requires Valid()
      modifies this, store
      ensures loaded == old(loaded) && old(stateFaults) <= stateFaults && old(decodeFaults) <= decodeFaults
      ensures !fault.Dangling? ==>
        && Valid() && n == (if n >= 0 then |PromptTokens(prompt)| else -1)
        && (n >= 0 <==> loaded && PromptTokens(prompt) != [] && Passes(|PromptTokens(prompt)|, hit) &&
                        decodeFaults == old(decodeFaults))
        && (n == -1 ==> !ready || !loaded) && (n >= 0 ==> ready && !finished)
        && (n >= 0 && (hit.Some? ==> hit.value.key !in old(store.suspect)) ==> AsIfCold(PromptTokens(prompt)))
        && store.suspect <= old(store.suspect) + {KeyOf(store.hash, amfCtx, PromptTokens(prompt))}
      ensures !fault.Dangling? && stateFaults == old(stateFaults) ==>
        OffersAfter(PromptTokens(prompt), n, hit, old(store.offers))
      ensures hit.Some? ==> OfPrefix(hit.value, PromptTokens(prompt)) && fault.NoFault?
      ensures hit.Some? && n >= 0 ==> Credited(hit.value)
      ensures
        var answer := old(store.Answer(amfCtx, PromptTokens(prompt), now));
        var due := loaded && PromptTokens(prompt) != [] && amfReady && Serves(answer, old(store.kvFiles));
        && (hit.Some? ==> due && hit.value == answer.entry && stateFaults == old(stateFaults))
        && (due && hit.None? ==> stateFaults > old(stateFaults))
      ensures store.suspect <= old(store.suspect) || Spoils(store.hash, PromptTokens(prompt), fault)
    {
      hit, now, fault := None, 0, NoFault;
      if !loaded { return -1, hit, now, fault; }
      cells, logits := [], None;
      Reset();
      var tokens := PromptTokens(prompt);
      if tokens == [] { return -1, hit, now, fault; }
      n, hit, now, fault := Evaluate(tokens);
    }

    /** The evaluation of a prompt on a cleared decoder: from the store if it can be, else from scratch. */
    method Evaluate(tokens: seq<Token>)
      returns (n: int, ghost hit: Option<Entry<D>>, ghost now: nat, ghost fault: Fault)
      requires Valid() && Holds([]) && tokens != []
      modifies this`cells, this`logits, this`pos, this`ready, this`finished, this`decodeFaults, this`stateFaults, store
      ensures old(stateFaults) <= stateFaults && old(decodeFaults) <= decodeFaults
      ensures !fault.Dangling? ==>
        && Valid() && ((n == -1 && !ready) || (n == |tokens| && ready && !finished))
        && (n >= 0 <==> Passes(|tokens|, hit) && decodeFaults == old(decodeFaults))
        && (n >= 0 && (hit.Some? ==> hit.value.key !in old(store.suspect)) ==> AsIfCold(tokens))
        && store.suspect <= old(store.suspect) + {KeyOf(store.hash, amfCtx, tokens)}
      ensures !fault.Dangling? && stateFaults == old(stateFaults) ==> OffersAfter(tokens, n, hit, old(store.offers))
      ensures hit.Some? ==> OfPrefix(hit.value, tokens) && fault.NoFault?
      ensures hit.Some? && n >= 0 ==> Credited(hit.value)
      ensures
        var answer := old(store.Answer(amfCtx, tokens, now));
        var due := amfReady && Serves(answer, old(store.kvFiles));
        && (hit.Some? ==> due && hit.value == answer.entry && stateFaults == old(stateFaults))
        && (due && hit.None? ==> stateFaults > old(stateFaults))
      ensures store.suspect <= old(store.suspect) || Spoils(store.hash, tokens, fault)
    {
      hit, now, fault := None, 0, NoFault;
      if amfReady {
        var warmth;
        warmth, hit, now := FromStore(tokens);
        if warmth.Failed? { return -1, hit, now, fault; }
        if warmth.Warmed? {
          ready, finished := true, false;
          return |tokens|, hit, now, fault;
        }
      }
      n, fault := FromScratch(tokens);
    }

    /** Decodes a whole prompt into the empty cache. */
    method DecodeCold(tokens: seq<Token>) returns (ok: bool)
      requires Holds([]) && tokens != []
      modifies this`cells, this`logits, this`pos, this`decodeFaults
      ensures ok <==> !Refuses(nCtx, nBatch, |tokens|) && decodeFaults == old(decodeFaults)
      ensures ok ==> AsIfCold(tokens)
      ensures old(decodeFaults) <= decodeFaults
    {
      ok := EnsureCapacityAndDecode(tokens);
      CellsAppend([], tokens);
      assert [] + tokens == tokens;
    }

    /** The cold path, which also offers the state it reaches to the store. */
    method FromScratch(tokens: seq<Token>) returns (n: int, ghost fault: Fault)
      requires Valid() && Holds([]) && tokens != []
      modifies this`cells, this`logits, this`pos, this`ready, this`finished, this`decodeFaults, this`stateFaults, store
      ensures old(stateFaults) <= stateFaults && old(decodeFaults) <= decodeFaults
      ensures !fault.Dangling? ==>
        && Valid() && ((n == -1 && !ready) || (n == |tokens| && ready && !finished && AsIfCold(tokens)))
        && (n >= 0 <==> !Refuses(nCtx, nBatch, |tokens|) && decodeFaults == old(decodeFaults))
        && store.suspect <= old(store.suspect) + {KeyOf(store.hash, amfCtx, tokens)}
      ensures !fault.Dangling? && stateFaults == old(stateFaults) ==> OffersAfter(tokens, n, None, old(store.offers))
      ensures store.suspect <= old(store.suspect) || Spoils(store.hash, tokens, fault)
    {
      fault := NoFault;
      var ok := DecodeCold(tokens);
      if !ok {
        Reset();
        return -1, fault;
      }
      if amfReady && |tokens| >= store.config.minTokens {
        fault := OfferState(tokens);
      }
      ready, finished := true, false;
      n := |tokens|;
    }

    /** The store holds the state of this whole prompt, and still will at the time `now`. */
    ghost predicate Keeps(tokens: seq<Token>, now: nat)
      reads this, store
    {
      && amfReady && store.Scans(tokens) && |tokens| < 0x1_0000_0000
      && store.Stored(amfCtx, tokens, codec.encode(ColdState(net, tokens)))
      && var e := store.entries[store.index[KeyOf(store.hash, amfCtx, tokens)]];
         e.modelHash == amfCtx.modelHash && (e.expiresAt == 0 || now <= e.expiresAt)
    }

    lemma KeptServes(tokens: seq<Token>, now: nat)
      requires Valid() && Keeps(tokens, now)
      ensures
        var answer := store.Answer(amfCtx, tokens, now);
        Serves(answer, store.kvFiles) && answer.entry.prefixLen == |tokens| && answer.entry.key !in store.suspect
    {
      assert tokens[..|tokens|] == tokens;
      var e := store.entries[store.index[KeyOf(store.hash, amfCtx, tokens)]];
      ScanFinds(store.config, store.hash, store.entries, store.index, store.tokFiles, amfCtx, tokens, now, |tokens|, e);
      assert codec.decode(codec.encode(ColdState(net, tokens))) == Some(ColdState(net, tokens));
    }

    /** A prompt that the store holds whole succeeds without decoding anything, whatever its length. */
    method TokenizeKept(prompt: string) returns (n: int, ghost hit: Option<Entry<D>>, ghost now: nat)
      requires Valid() && loaded && PromptTokens(prompt) != []
      modifies this, store
      ensures old(Keeps(PromptTokens(prompt), now)) &&
              stateFaults == old(stateFaults) && decodeFaults == old(decodeFaults) ==>
        n == |PromptTokens(prompt)| && hit.Some? && hit.value.prefixLen == n && AsIfCold(PromptTokens(prompt))
    {
      forall t | Keeps(PromptTokens(prompt), t) {
        KeptServes(PromptTokens(prompt), t);
      }
      ghost var fault;
      n, hit, now, fault := Tokenize(prompt);
    }
  }
}
