/**
 Speculative decoding V2: a draft network proposes, the target network verifies in one batch,
 and rejected proposals are rolled back out of both caches.

 Every decode, every read of a logits pointer and every write to stdout may fail at any time.
 The main result is the class invariant: whatever the draft proposes and whatever fails, the
 tokens written are those of plain greedy decoding with the target alone.
 */
module SpecDecode {
  import opened Wrappers
  import opened Llama
  import opened DynamicK

  // ----- Plain greedy decoding: the reference -----

  datatype Target = Target(net: Net, isEog: Token -> bool) {
    /** The greedy choice after `text`. */
    function Next(text: seq<Token>): Token {
      Greedy(Some(net(Cells(text))))
    }

    predicate Stops(t: Token) {
      t == TOKEN_NULL || isEog(t)
    }

    /** At most n tokens of one-token-at-a-time greedy decoding after `prompt`. */
    function Plain(prompt: seq<Token>, n: nat): (out: seq<Token>)
      ensures |out| <= n
    {
      if n == 0 then []
      else
        var out := Plain(prompt, n - 1);
        var t := Next(prompt + out);
        if |out| < n - 1 || Stops(t) then out else out + [t]
    }

    /** Each token is the greedy choice after the prompt and the tokens before it. */
    ghost predicate IsGreedy(prompt: seq<Token>, out: seq<Token>) {
      forall i :: 0 <= i < |out| ==> out[i] == Next(prompt + out[..i]) && !Stops(out[i])
    }

    /** Tokens chosen greedily one by one are exactly what plain decoding writes. */
    lemma {:induction false} GreedyIsPlain(prompt: seq<Token>, out: seq<Token>)
      requires IsGreedy(prompt, out)
      ensures Plain(prompt, |out|) == out
    {
      if out != [] {
        var m := |out| - 1;
        forall i | 0 <= i < m
          ensures out[..m][i] == Next(prompt + out[..m][..i]) && !Stops(out[..m][i])
        {
          assert out[..m][..i] == out[..i];
        }
        GreedyIsPlain(prompt, out[..m]);
        assert out == out[..m] + [out[m]];
      }
    }

    /** Plain decoding with a larger allowance only extends its output. */
    lemma {:induction false} PlainGrows(prompt: seq<Token>, n: nat, m: nat)
      requires n <= m
      ensures Plain(prompt, n) <= Plain(prompt, m)
    {
      if n < m { PlainGrows(prompt, n, m - 1); }
    }

    /** Once the next choice ends the text, plain decoding never writes more. */
    lemma {:induction false} PlainEnds(prompt: seq<Token>, out: seq<Token>, m: nat)
      requires IsGreedy(prompt, out) && Stops(Next(prompt + out)) && |out| <= m
      ensures Plain(prompt, m) == out
    {
      if m == |out| {
        GreedyIsPlain(prompt, out);
      } else {
        PlainEnds(prompt, out, m - 1);
      }
    }

    /** Appending the greedy choice keeps the text greedy. */
    lemma GreedyAppend(prompt: seq<Token>, out: seq<Token>, t: Token)
      requires IsGreedy(prompt, out) && t == Next(prompt + out) && !Stops(t)
      ensures IsGreedy(prompt, out + [t])
    {
      var out' := out + [t];
      forall i | 0 <= i < |out'|
        ensures out'[i] == Next(prompt + out'[..i]) && !Stops(out'[i])
      {
        assert out'[..i] == out[..i];
      }
    }
  }

  /** The first n of `toks` are each the target's choice after `text` and those before it. */
  ghost predicate Agree(target: Target, text: seq<Token>, toks: seq<Token>, n: nat) {
    n <= |toks| && forall i :: 0 <= i < n ==> toks[i] == target.Next(text + toks[..i])
  }

  /** Exactly n of `toks` agree, counted up to the first that does not. */
  ghost predicate LongestAgree(target: Target, text: seq<Token>, toks: seq<Token>, n: nat) {
    Agree(target, text, toks, n) && (n < |toks| ==> toks[n] != target.Next(text + toks[..n]))
  }

  /** The count is determined by the proposal. */
  lemma LongestOnce(target: Target, text: seq<Token>, toks: seq<Token>, n: nat, m: nat)
    requires LongestAgree(target, text, toks, n) && LongestAgree(target, text, toks, m)
    ensures n == m
  {
  }

  /** Each of `toks` is a network's greedy choice after `text` and those before it. */
  ghost predicate Chooses(net: Net, text: seq<Token>, toks: seq<Token>) {
    forall i :: 0 <= i < |toks| ==> toks[i] == Greedy(Some(net(Cells(text + toks[..i]))))
  }

  /** The proposal of a draft network: its own greedy text, k tokens of it or up to where it would stop. */
  ghost predicate Drafted(net: Net, target: Target, text: seq<Token>, toks: seq<Token>, k: int) {
    && Chooses(net, text, toks) && |toks| <= k
    && (|toks| < k ==> target.Stops(Greedy(Some(net(Cells(text + toks))))))
  }

  lemma ChoosesNext(net: Net, text: seq<Token>, toks: seq<Token>, t: Token)
    requires Chooses(net, text, toks) && t == Greedy(Some(net(Cells(text + toks))))
    ensures Chooses(net, text, toks + [t])
  {
    forall i | 0 <= i < |toks + [t]|
      ensures (toks + [t])[i] == Greedy(Some(net(Cells(text + (toks + [t])[..i]))))
    {
      assert (toks + [t])[..i] == toks[..i];
      assert i == |toks| ==> toks[..i] == toks;
    }
  }

  /** The rows of logits of a batch decoded on top of `cells`, one per token of the batch. */
  function Rows(net: Net, cells: seq<Cell>, batch: seq<Cell>): (rows: seq<Logits>)
    ensures |rows| == |batch|
    ensures forall i :: 0 <= i < |rows| ==> rows[i] == net(cells + batch[..i + 1])
  {
    seq(|batch|, i requires 0 <= i < |batch| => net(cells + batch[..i + 1]))
  }

  /** A verify batch on top of `before`: row i is the target's row after t0 and i proposals. */
  lemma BatchRows(net: Net, before: seq<Token>, t0: Token, toks: seq<Token>)
    ensures var batch := [Cell(|before|, t0)] + CellsFrom(|before| + 1, toks);
            && Cells(before) + batch == Cells(before + [t0] + toks)
            && (forall i :: 0 <= i <= |toks| ==>
                  Rows(net, Cells(before), batch)[i] == net(Cells(before + [t0] + toks[..i])))
  {
    var batch := [Cell(|before|, t0)] + CellsFrom(|before| + 1, toks);
    forall i | 0 <= i <= |toks|
      ensures Cells(before) + batch[..i + 1] == Cells(before + [t0] + toks[..i])
    {
      assert batch[..i + 1] == CellsFrom(|before|, [t0] + toks[..i]);
      assert before + [t0] + toks[..i] == before + ([t0] + toks[..i]);
      CellsAppend(before, [t0] + toks[..i]);
    }
    assert batch[..|toks| + 1] == batch && toks[..|toks|] == toks;
  }

  /** Compares each proposal with the target's row for it, up to the first mismatch. */
  method CountAgreeing(target: Target, ghost text: seq<Token>, rows: seq<Logits>, toks: seq<Token>)
    returns (accepted: nat, correction: Token)
    requires |rows| == |toks| + 1
    requires forall i :: 0 <= i <= |toks| ==> rows[i] == target.net(Cells(text + toks[..i]))
    ensures LongestAgree(target, text, toks, accepted)
    ensures accepted < |toks| ==> correction == target.Next(text + toks[..accepted])
  {
    accepted, correction := 0, TOKEN_NULL;
    for i := 0 to |toks|
      invariant accepted == i && Agree(target, text, toks, i)
    {
      var pred := GreedySample(Some(rows[i]));
      if pred == toks[i] {
        accepted := accepted + 1;
      } else {
        correction := pred;
        break;
      }
    }
  }

  // ----- The rounds -----

  /**
   One pass of the loop: the text when the draft was fed, what it proposed, and how many proposals
   were recorded as accepted; None when nothing was recorded.
   */
  datatype Turn = Turn(text: seq<Token>, toks: seq<Token>, accepted: Option<nat>)

  /** What a pass adds to the history of rounds. */
  function RoundOf(t: Turn): seq<Round> {
    if t.accepted.Some? then [Round(|t.toks|, t.accepted.value)] else []
  }

  function RoundsOf(turns: seq<Turn>): seq<Round> {
    if turns == [] then [] else RoundsOf(turns[..|turns| - 1]) + RoundOf(turns[|turns| - 1])
  }

  /** What is recorded are the proposals the target agrees with, up to the first it does not. */
  ghost predicate TurnOk(target: Target, t: Turn) {
    t.accepted.Some? ==> t.toks != [] && LongestAgree(target, t.text, t.toks, t.accepted.value)
  }

  /** Proposals were made but the loop was left before they were recorded. */
  predicate Abandoned(t: Turn) {
    t.toks != [] && t.accepted.None?
  }

  /** What a recorded round adds to the text: the accepted proposals, and the target's correction of the next. */
  function Kept(target: Target, text: seq<Token>, toks: seq<Token>, n: nat): seq<Token>
    requires n <= |toks|
  {
    var next := target.Next(text + toks[..n]);
    toks[..n] + if n == |toks| || target.Stops(next) then [] else [next]
  }

  /** The history grew by the rounds of these passes, which happened at ever later points of the text. */
  ghost predicate Logged(target: Target, before: seq<Round>, turns: seq<Turn>, history: seq<Round>, text: seq<Token>) {
    && history == before + RoundsOf(turns)
    && (forall i :: 0 <= i < |turns| ==> TurnOk(target, turns[i]) && turns[i].text <= text)
    && (forall i, j :: 0 <= i < j < |turns| ==> |turns[i].text| < |turns[j].text|)
  }

  /** Pass i proposed the draft's own greedy text, as long as the history before it asks for. */
  ghost predicate DraftedAt(net: Net, target: Target, before: seq<Round>, turns: seq<Turn>, i: nat)
    requires i < |turns|
  {
    Drafted(net, target, turns[i].text, turns[i].toks, KAfter(before + RoundsOf(turns[..i])))
  }

  ghost predicate AllDrafted(net: Net, target: Target, before: seq<Round>, turns: seq<Turn>) {
    forall i :: 0 <= i < |turns| ==> DraftedAt(net, target, before, turns, i)
  }

  lemma LoggedGrows(target: Target, before: seq<Round>, turns: seq<Turn>, history: seq<Round>, text: seq<Token>,
                    text': seq<Token>)
    requires Logged(target, before, turns, history, text) && text <= text'
    ensures Logged(target, before, turns, history, text')
  {
  }

  lemma LoggedNext(target: Target, before: seq<Round>, turns: seq<Turn>, text: seq<Token>, t: Turn, text': seq<Token>)
    requires Logged(target, before, turns, before + RoundsOf(turns), text) && TurnOk(target, t)
    requires text <= text' && t.text <= text' && |t.text| > |text|
    ensures Logged(target, before, turns + [t], before + RoundsOf(turns) + RoundOf(t), text')
  {
    var all := turns + [t];
    assert all[..|turns|] == turns;
    forall i | 0 <= i < |all| ensures TurnOk(target, all[i]) && all[i].text <= text' {
      assert i < |turns| ==> turns[i].text <= text;
    }
    forall i, j | 0 <= i < j < |all| ensures |all[i].text| < |all[j].text| {
      assert turns[i].text <= text;
    }
  }

  lemma DraftedNext(net: Net, target: Target, before: seq<Round>, turns: seq<Turn>, t: Turn)
    requires AllDrafted(net, target, before, turns)
    requires Drafted(net, target, t.text, t.toks, KAfter(before + RoundsOf(turns)))
    ensures AllDrafted(net, target, before, turns + [t])
  {
    var all := turns + [t];
    forall i | 0 <= i < |all| ensures DraftedAt(net, target, before, all, i) {
      assert all[..i] == turns[..i];
      if i == |turns| {
        assert turns[..i] == turns;
      } else {
        assert DraftedAt(net, target, before, turns, i);
      }
    }
  }

  // ----- The protocol -----

  class SpecV2 {
    const target: Target
    const draftNet: Net
    const dynK: DynK
    ghost const prompt: seq<Token>

    var targetCells: seq<Cell>
    var targetRows: seq<Logits>      // logits of the last successful target batch
    var draftCells: seq<Cell>
    var posTarget: int
    var posDraft: int
    var logitsTarget: Option<Logits>
    var logitsDraft: Option<Logits>
    var finished: bool
    var printedTotal: nat
    var output: seq<Token>           // tokens written to stdout

    ghost var draftFailed: bool      // some draft decode has failed
    ghost var draftMuted: bool       // some read of draft logits has failed
    ghost var faulted: bool          // a write, a target decode or a target logits read has failed

    ghost function Text(): seq<Token>
      reads this
    {
      prompt + output
    }

    ghost predicate Synced()
      reads this
    {
      && targetCells == Cells(Text())
      && posTarget == |Text()|
      && (logitsTarget == Some(target.net(targetCells)) || (logitsTarget.None? && faulted))
      && (!draftFailed ==> draftCells == targetCells && posDraft == posTarget)
    }

    ghost predicate Valid()
      reads this, dynK, dynK.proposedBuf, dynK.acceptedBuf
    {
      && dynK.Valid()
      && target.IsGreedy(prompt, output)
      && (!finished ==> Synced())
    }

    /** A fresh session: both networks have decoded the prompt. */
    constructor (target: Target, draftNet: Net, prompt: seq<Token>)
      ensures Valid() && !finished && output == [] && printedTotal == 0
      ensures this.target == target && this.draftNet == draftNet && this.prompt == prompt
      ensures !draftFailed && !draftMuted && !faulted && dynK.history == []
      ensures fresh(dynK) && fresh(dynK.proposedBuf) && fresh(dynK.acceptedBuf)
    {
      this.target, this.draftNet, this.prompt := target, draftNet, prompt;
      dynK := new DynK();
      targetCells, draftCells, targetRows := Cells(prompt), Cells(prompt), [];
      posTarget, posDraft := |prompt|, |prompt|;
      logitsTarget := Some(target.net(Cells(prompt)));
      logitsDraft := Some(draftNet(Cells(prompt)));
      finished, printedTotal, output := false, 0, [];
      draftFailed, draftMuted, faulted := false, false, false;
      new;
      assert prompt + [] == prompt;
    }

    // ----- llama.cpp and stdout -----

    /** llama_decode on the target, with logits requested for every token of the batch. */
    method DecodeTarget(batch: seq<Cell>) returns (ok: bool)
      modifies this`targetCells, this`targetRows, this`faulted
      ensures ok ==> targetCells == old(targetCells) + batch && faulted == old(faulted)
      ensures ok ==> targetRows == Rows(target.net, old(targetCells), batch)
      ensures !ok ==> targetCells == old(targetCells) && faulted
    {
      ok := *;
      if ok {
        targetRows := Rows(target.net, targetCells, batch);
        targetCells := targetCells + batch;
      } else {
        faulted := true;
      }
    }

    /** llama_get_logits / llama_get_logits_ith on the target. */
    method TargetRow(i: nat) returns (row: Option<Logits>)
      requires i < |targetRows|
      modifies this`faulted
      ensures (row == Some(targetRows[i]) && faulted == old(faulted)) || (row.None? && faulted)
    {
      var present: bool := *;
      if present { row := Some(targetRows[i]); } else { row := None; faulted := true; }
    }

    /** llama_decode of one token on the draft. */
    method DecodeDraft(pos: int, t: Token) returns (ok: bool)
      modifies this`draftCells, this`draftFailed
      ensures ok ==> draftCells == old(draftCells) + [Cell(pos, t)] && draftFailed == old(draftFailed)
      ensures !ok ==> draftCells == old(draftCells) && draftFailed
    {
      ok := *;
      if ok { draftCells := draftCells + [Cell(pos, t)]; } else { draftFailed := true; }
    }

    /** llama_get_logits on the draft after a successful decode. */
    method DraftRow() returns (row: Option<Logits>)
      modifies this`draftMuted
      ensures (row == Some(draftNet(draftCells)) && draftMuted == old(draftMuted)) || (row.None? && draftMuted)
    {
      var present: bool := *;
      if present { row := Some(draftNet(draftCells)); } else { row := None; draftMuted := true; }
    }

    /** emit_token with the counters that follow it. */
    method Emit(t: Token) returns (ok: bool)
      requires target.IsGreedy(prompt, output) && t == target.Next(Text()) && !target.Stops(t)
      modifies this`output, this`printedTotal, this`faulted
      ensures target.IsGreedy(prompt, output)
      ensures ok ==> output == old(output) + [t] && printedTotal == old(printedTotal) + 1 && faulted == old(faulted)
      ensures !ok ==> output == old(output) && printedTotal == old(printedTotal) && faulted
    {
      ok := *;
      if ok {
        target.GreedyAppend(prompt, output, t);
        output := output + [t];
        printedTotal := printedTotal + 1;
      } else {
        faulted := true;
      }
    }

    // ----- One iteration -----

    /** Decodes the token just written into the target alone. */
    method TargetOnly(t: Token)
      requires output != [] && t == output[|output| - 1]
      requires targetCells == Cells(prompt + output[..|output| - 1]) && posTarget == |targetCells|
      requires !finished
      modifies this`targetCells, this`targetRows, this`faulted, this`posTarget, this`logitsTarget, this`finished
      ensures finished ==> faulted
      ensures !finished ==> targetCells == Cells(Text()) && posTarget == |Text()|
      ensures !finished ==> logitsTarget == Some(target.net(targetCells)) || (logitsTarget.None? && faulted)
      ensures old(faulted) ==> faulted
    {
      var ok := DecodeTarget([Cell(posTarget, t)]);
      if !ok { finished := true; return; }
      assert Text() == prompt + output[..|output| - 1] + [t];
      CellsAppend(prompt + output[..|output| - 1], [t]);
      assert targetCells == Cells(Text());
      posTarget := posTarget + 1;
      assert [Cell(posTarget - 1, t)][..1] == [Cell(posTarget - 1, t)];
      logitsTarget := TargetRow(0);
    }

    /**
     The proposal loop: the draft's greedy text, k tokens of it or up to where it stops, unless a
     failure of the draft cuts it short.
     */
    method Propose(k: nat) returns (toks: seq<Token>)
      requires logitsDraft == Some(draftNet(draftCells))
      requires !draftFailed ==> draftCells == Cells(Text()) && posDraft == |Text()|
      modifies this`draftCells, this`draftFailed, this`draftMuted, this`posDraft, this`logitsDraft
      ensures |toks| <= k
      ensures forall i :: 0 <= i < |toks| ==> !target.Stops(toks[i])
      ensures !draftFailed ==> draftCells == Cells(Text() + toks) && posDraft == |Text() + toks|
      ensures !draftFailed ==> Chooses(draftNet, Text(), toks)
      ensures !draftFailed && !draftMuted ==> Drafted(draftNet, target, Text(), toks, k)
      ensures (old(draftFailed) ==> draftFailed) && (old(draftMuted) ==> draftMuted)
    {
      toks := [];
      assert Text() + [] == Text();
      for i := 0 to k
        invariant |toks| == i && logitsDraft == Some(draftNet(draftCells))
        invariant forall j :: 0 <= j < |toks| ==> !target.Stops(toks[j])
        invariant !draftFailed ==> draftCells == Cells(Text() + toks) && posDraft == |Text() + toks|
        invariant !draftFailed ==> Chooses(draftNet, Text(), toks)
        invariant (old(draftFailed) ==> draftFailed) && (old(draftMuted) ==> draftMuted)
      {
        var d := GreedySample(logitsDraft);
        if d == TOKEN_NULL || target.isEog(d) { break; }
        CellsAppend(Text() + toks, [d]);
        assert Text() + (toks + [d]) == Text() + toks + [d];
        if !draftFailed {
          ChoosesNext(draftNet, Text(), toks, d);
        }
        toks := toks + [d];
        var ok := DecodeDraft(posDraft, d);
        if !ok { break; }
        posDraft := posDraft + 1;
        logitsDraft := DraftRow();
        if logitsDraft.None? { break; }
      }
    }

    /** Runs [t0] + toks through the target in one batch and counts the agreeing proposals. */
    method Verify(t0: Token, toks: seq<Token>) returns (accepted: nat, correction: Token)
      requires toks != [] && output != [] && t0 == output[|output| - 1]
      requires targetCells == Cells(prompt + output[..|output| - 1]) && posTarget == |targetCells|
      requires !finished
      modifies this`targetCells, this`targetRows, this`faulted, this`finished
      ensures old(faulted) ==> faulted
      ensures finished ==> faulted
      ensures !finished ==>
                && targetCells == Cells(Text() + toks)
                && LongestAgree(target, Text(), toks, accepted)
                && (accepted < |toks| ==> correction == target.Next(Text() + toks[..accepted]))
                && |targetRows| == |toks| + 1
                && targetRows[|toks|] == target.net(Cells(Text() + toks))
    {
      accepted, correction := 0, TOKEN_NULL;
      ghost var before := prompt + output[..|output| - 1];
      assert Text() == before + [t0];
      BatchRows(target.net, before, t0, toks);
      var ok := DecodeTarget([Cell(posTarget, t0)] + CellsFrom(posTarget + 1, toks));
      if !ok { finished := true; return; }
      var base := TargetRow(0);
      if base.None? { finished := true; return; }
      assert toks[..|toks|] == toks;
      accepted, correction := CountAgreeing(target, Text(), targetRows, toks);
    }

    /** Writes the accepted proposals, stopping at a failed write or at the token budget. */
    method PrintAccepted(toks: seq<Token>, accepted: nat, maxTokens: nat)
      requires target.IsGreedy(prompt, output) && Agree(target, Text(), toks, accepted)
      requires forall i :: 0 <= i < |toks| ==> !target.Stops(toks[i])
      requires !finished && (maxTokens > 0 ==> printedTotal < maxTokens)
      modifies this`output, this`printedTotal, this`faulted, this`finished
      ensures target.IsGreedy(prompt, output)
      ensures old(output) <= output && |output| <= |old(output)| + accepted
      ensures printedTotal - old(printedTotal) == |output| - |old(output)|
      ensures !finished ==> output == old(output) + toks[..accepted]
      ensures maxTokens > 0 ==> printedTotal <= maxTokens && (!finished ==> printedTotal < maxTokens)
      ensures finished ==> faulted || (maxTokens > 0 && printedTotal == maxTokens)
      ensures old(faulted) ==> faulted
    {
      ghost var text := Text();
      var i := 0;
      while i < accepted && !finished
        invariant 0 <= i <= accepted
        invariant output == old(output) + toks[..i]
        invariant Text() == text + toks[..i]
        invariant target.IsGreedy(prompt, output)
        invariant printedTotal == old(printedTotal) + i
        invariant maxTokens > 0 ==> printedTotal <= maxTokens && (!finished ==> printedTotal < maxTokens)
        invariant finished ==> maxTokens > 0 && printedTotal == maxTokens
        invariant faulted == old(faulted)
      {
        assert toks[i] == target.Next(text + toks[..i]);
        var ok := Emit(toks[i]);
        if !ok { finished := true; break; }
        if maxTokens > 0 && printedTotal >= maxTokens { finished := true; }
        i := i + 1;
        assert toks[..i] == toks[..i - 1] + [toks[i - 1]];
      }
    }

    /** llama_memory_seq_rm on both caches over the positions of the rejected proposals. */
    method Rollback(ghost text: seq<Token>, ghost wrong: seq<Token>, rmStart: int, rmEnd: int)
      requires targetCells == Cells(text + wrong)
      requires !draftFailed ==> draftCells == Cells(text + wrong)
      requires rmStart == |text| && rmEnd == |text + wrong|
      modifies this`targetCells, this`draftCells
      ensures targetCells == Cells(text)
      ensures !draftFailed ==> draftCells == Cells(text)
    {
      RemoveTail(text + wrong, |text|, rmEnd);
      assert (text + wrong)[..|text|] == text;
      if rmStart < rmEnd {
        targetCells := Remove(targetCells, rmStart, rmEnd);
        draftCells := Remove(draftCells, rmStart, rmEnd);
      } else {
        assert text + wrong == text;
      }
    }

    /** Decodes the correction just written into both models. */
    method DecodeCorrection(corrPos: int, correction: Token)
      requires output != [] && correction == output[|output| - 1]
      requires targetCells == Cells(prompt + output[..|output| - 1]) && corrPos == |targetCells|
      requires !draftFailed ==> draftCells == targetCells
      requires !finished
      modifies this`targetCells, this`targetRows, this`draftCells, this`posTarget, this`posDraft,
               this`logitsTarget, this`logitsDraft, this`finished, this`draftFailed, this`draftMuted, this`faulted
      ensures !finished ==> Synced()
      ensures finished ==> faulted
      ensures old(faulted) ==> faulted
      ensures (old(draftFailed) ==> draftFailed) && (old(draftMuted) ==> draftMuted)
    {
      posTarget := corrPos;
      ghost var before := prompt + output[..|output| - 1];
      assert Text() == before + [correction];
      CellsAppend(before, [correction]);
      assert Cells(Text()) == Cells(before) + [Cell(corrPos, correction)];
      TargetOnly(correction);
      if finished { return; }
      var ok := DecodeDraft(corrPos, correction);
      if !ok {
        posDraft := posTarget;
        logitsDraft := None;
      } else {
        logitsDraft := DraftRow();
        posDraft := corrPos + 1;
      }
    }

    /**
     The mismatch branch: write the target's correction, roll back, decode the correction.
     `done` is false when a failure leaves the loop from inside the branch.
     */
    method Reject(pos0: int, toks: seq<Token>, accepted: nat, correction: Token, maxTokens: nat)
      returns (done: bool)
      requires target.IsGreedy(prompt, output) && !finished
      requires accepted < |toks|
      requires correction == target.Next(Text())
      requires targetCells == Cells(Text() + toks[accepted..])
      requires pos0 == |Text()| - accepted - 1
      requires !draftFailed ==> draftCells == Cells(Text() + toks[accepted..])
      requires maxTokens > 0 ==> printedTotal < maxTokens
      modifies this`targetCells, this`targetRows, this`draftCells, this`posTarget, this`posDraft,
               this`logitsTarget, this`logitsDraft, this`finished, this`printedTotal, this`output,
               this`draftFailed, this`draftMuted, this`faulted
      ensures target.IsGreedy(prompt, output)
      ensures old(output) <= output && |output| <= |old(output)| + 1
      ensures printedTotal - old(printedTotal) == |output| - |old(output)|
      ensures maxTokens > 0 ==> printedTotal <= maxTokens
      ensures !finished ==> Synced()
      ensures finished ==> Ended(maxTokens)
      ensures !done ==> finished && faulted
      ensures done ==> output == old(output) + if target.Stops(correction) then [] else [correction]
      ensures old(faulted) ==> faulted
      ensures (old(draftFailed) ==> draftFailed) && (old(draftMuted) ==> draftMuted)
    {
      ghost var text := Text();
      done := true;
      var corrEog := correction == TOKEN_NULL || target.isEog(correction);
      if !corrEog {
        var ok := Emit(correction);
        if !ok { finished := true; return false; }
        if maxTokens > 0 && printedTotal >= maxTokens { finished := true; }
      } else {
        finished := true;
      }
      Rollback(text, toks[accepted..], pos0 + accepted + 1, pos0 + |toks| + 1);
      if !corrEog && !finished {
        assert prompt + output[..|output| - 1] == text;
        DecodeCorrection(pos0 + accepted + 1, correction);
        done := !finished;
      } else {
        posTarget := pos0 + accepted + 1;
        posDraft := posTarget;
      }
    }

    /** The target has yet to decode t0, the last token written; the draft is `toks` ahead. */
    ghost predicate Pending(t0: Token, toks: seq<Token>)
      reads this
    {
      && target.IsGreedy(prompt, output) && !finished
      && output != [] && t0 == output[|output| - 1]
      && (forall i :: 0 <= i < |toks| ==> !target.Stops(toks[i]))
      && targetCells == Cells(prompt + output[..|output| - 1]) && posTarget == |targetCells|
      && (!draftFailed ==> draftCells == Cells(Text() + toks) && posDraft == |Text() + toks|)
    }

    /** Why a run may end: a failure, the target's own end of text, or the token budget. */
    ghost predicate Ended(maxTokens: nat)
      reads this
    {
      faulted || target.Stops(target.Next(Text())) || (maxTokens > 0 && printedTotal == maxTokens)
    }

    /** The branch where every proposal was accepted. */
    method Accept(pos0: int, toks: seq<Token>)
      requires targetCells == Cells(Text()) && pos0 + |toks| + 1 == |Text()| && !finished
      requires |targetRows| == |toks| + 1 && targetRows[|toks|] == target.net(targetCells)
      requires !draftFailed ==> draftCells == targetCells && posDraft == |Text()|
      modifies this`logitsTarget, this`posTarget, this`faulted
      ensures Synced() && (old(faulted) ==> faulted)
    {
      logitsTarget := TargetRow(|toks|);
      posTarget := pos0 + |toks| + 1;
    }

    /**
     Steps 4 to 6 of an iteration: verify, write, and commit or roll back the proposals.
     `done` is false when the loop is left before the round is recorded.
     */
    method Settle(t0: Token, toks: seq<Token>, maxTokens: nat) returns (accepted: nat, done: bool)
      requires Pending(t0, toks) && toks != []
      requires maxTokens > 0 ==> printedTotal < maxTokens
      modifies this
      ensures target.IsGreedy(prompt, output) && (!finished ==> Synced())
      ensures old(output) <= output && |output| <= |old(output)| + |toks|
      ensures printedTotal - old(printedTotal) == |output| - |old(output)|
      ensures maxTokens > 0 ==> printedTotal <= maxTokens
      ensures finished ==> Ended(maxTokens)
      ensures !done ==> finished && (faulted || (maxTokens > 0 && printedTotal == maxTokens))
      ensures old(faulted) ==> faulted
      ensures (old(draftFailed) ==> draftFailed) && (old(draftMuted) ==> draftMuted)
      ensures done ==> LongestAgree(target, old(Text()), toks, accepted)
      ensures done ==> Text() == old(Text()) + Kept(target, old(Text()), toks, accepted)
    {
      ghost var text := Text();
      var pos0 := posTarget;
      done := false;
      var correction;
      accepted, correction := Verify(t0, toks);
      if finished { return; }
      PrintAccepted(toks, accepted, maxTokens);
      if finished { return; }
      assert Text() == text + toks[..accepted];
      done := Conclude(text, pos0, toks, accepted, correction, maxTokens);
    }

    /** Step 6: the accepted proposals are written; commit them, or roll the others back. */
    method Conclude(ghost text: seq<Token>, pos0: int, toks: seq<Token>, accepted: nat, correction: Token,
                    maxTokens: nat)
      returns (done: bool)
      requires target.IsGreedy(prompt, output) && !finished && accepted <= |toks| && Text() == text + toks[..accepted]
      requires accepted < |toks| ==> correction == target.Next(Text())
      requires targetCells == Cells(text + toks) && pos0 + 1 == |text|
      requires |targetRows| == |toks| + 1 && targetRows[|toks|] == target.net(Cells(text + toks))
      requires !draftFailed ==> draftCells == Cells(text + toks) && posDraft == |text + toks|
      requires maxTokens > 0 ==> printedTotal < maxTokens
      modifies this`targetCells, this`targetRows, this`draftCells, this`posTarget, this`posDraft,
               this`logitsTarget, this`logitsDraft, this`finished, this`printedTotal, this`output,
               this`draftFailed, this`draftMuted, this`faulted
      ensures target.IsGreedy(prompt, output)
      ensures old(output) <= output && |output| <= |old(output)| + if accepted < |toks| then 1 else 0
      ensures printedTotal - old(printedTotal) == |output| - |old(output)|
      ensures maxTokens > 0 ==> printedTotal <= maxTokens
      ensures !finished ==> Synced()
      ensures finished ==> Ended(maxTokens)
      ensures !done ==> finished && faulted
      ensures old(faulted) ==> faulted
      ensures (old(draftFailed) ==> draftFailed) && (old(draftMuted) ==> draftMuted)
      ensures done ==> Text() == text + Kept(target, text, toks, accepted)
    {
      assert Text() + toks[accepted..] == text + toks;
      if accepted == |toks| {
        assert toks[..accepted] == toks && Text() + [] == Text();
        Accept(pos0, toks);
        done := true;
        assert text + Kept(target, text, toks, accepted) == text + toks;
      } else {
        done := Reject(pos0, toks, accepted, correction, maxTokens);
        if done {
          ghost var last := if target.Stops(correction) then [] else [correction];
          assert Kept(target, text, toks, accepted) == toks[..accepted] + last;
          assert Text() == text + toks[..accepted] + last == text + (toks[..accepted] + last);
        }
      }
    }

    /** Step 2: decode t0 into the draft; `ok` is false when the draft cannot be used now. */
    method FeedDraft(t0: Token) returns (ok: bool)
      requires output != [] && t0 == output[|output| - 1]
      requires !draftFailed ==> draftCells == Cells(prompt + output[..|output| - 1]) && posDraft == |draftCells|
      modifies this`draftCells, this`draftFailed, this`draftMuted, this`posDraft, this`logitsDraft
      ensures !draftFailed ==> draftCells == Cells(Text()) && posDraft == |Text()|
      ensures ok ==> logitsDraft == Some(draftNet(draftCells))
      ensures !ok ==> draftFailed || draftMuted
      ensures (old(draftFailed) ==> draftFailed) && (old(draftMuted) ==> draftMuted)
    {
      ghost var text := prompt + output[..|output| - 1];
      assert Text() == text + [t0];
      CellsAppend(text, [t0]);
      ok := DecodeDraft(posDraft, t0);
      posDraft := posDraft + 1;
      if ok {
        logitsDraft := DraftRow();
        ok := logitsDraft.Some?;
      } else {
        logitsDraft := None;
      }
    }

    /** Steps 2 and 3: feed t0 to the draft and collect proposals, or fall back to the target. */
    method Feed(t0: Token) returns (toks: seq<Token>)
      requires target.IsGreedy(prompt, output)
      requires output != [] && t0 == output[|output| - 1] && !finished
      requires targetCells == Cells(prompt + output[..|output| - 1]) && posTarget == |targetCells|
      requires !draftFailed ==> draftCells == targetCells && posDraft == posTarget
      requires K_MIN <= dynK.k <= K_MAX
      modifies this`targetCells, this`targetRows, this`faulted, this`posTarget, this`logitsTarget,
               this`finished, this`draftCells, this`draftFailed, this`draftMuted, this`posDraft, this`logitsDraft
      ensures |toks| <= K_MAX
      ensures toks == [] && !finished ==> Synced()
      ensures finished ==> faulted
      ensures toks != [] ==> Pending(t0, toks)
      ensures old(faulted) ==> faulted
      ensures (old(draftFailed) ==> draftFailed) && (old(draftMuted) ==> draftMuted)
      ensures !draftFailed && !draftMuted ==> Drafted(draftNet, target, Text(), toks, dynK.k)
    {
      toks := [];
      var ok := FeedDraft(t0);
      if ok { toks := Propose(dynK.k); }
      if |toks| == 0 {
        assert Text() + [] == Text();
        TargetOnly(t0);
      }
    }

    /**
     Steps 1 to 3 of an iteration: write the target's own choice, feed it to the draft and
     collect proposals. With no proposals the iteration is over and the target is up to date.
     */
    method Lead(maxTokens: nat) returns (t0: Token, toks: seq<Token>, ghost fed: bool)
      requires target.IsGreedy(prompt, output) && !finished && Synced()
      requires maxTokens > 0 ==> printedTotal < maxTokens
      requires K_MIN <= dynK.k <= K_MAX
      modifies this
      ensures target.IsGreedy(prompt, output)
      ensures toks == [] && !finished ==> Synced()
      ensures toks != [] ==> Pending(t0, toks) && (maxTokens > 0 ==> printedTotal < maxTokens)
      ensures |toks| <= K_MAX
      ensures old(output) <= output && |output| <= |old(output)| + 1
      ensures !finished ==> |output| == |old(output)| + 1
      ensures printedTotal - old(printedTotal) == |output| - |old(output)|
      ensures maxTokens > 0 ==> printedTotal <= maxTokens
      ensures finished ==> Ended(maxTokens)
      ensures old(faulted) ==> faulted
      ensures (old(draftFailed) ==> draftFailed) && (old(draftMuted) ==> draftMuted)
      ensures !fed ==> finished && toks == []
      ensures fed ==> t0 == target.Next(old(Text())) && Text() == old(Text()) + [t0]
      ensures fed && !draftFailed && !draftMuted ==> Drafted(draftNet, target, Text(), toks, dynK.k)
    {
      toks, fed := [], false;
      t0 := GreedySample(logitsTarget);
      if t0 == TOKEN_NULL || target.isEog(t0) { finished := true; return; }
      var ok := Emit(t0);
      if !ok { finished := true; return; }
      if maxTokens > 0 && printedTotal >= maxTokens { finished := true; return; }
      assert output[..|output| - 1] == old(output);
      fed := true;
      toks := Feed(t0);
    }

    /**
     One pass of the while loop; `turn` is None when it ends before the draft is fed. The round is
     recorded with the number of proposals and how many of them, from the first on, the target agrees
     with; nothing is recorded without proposals, or when the loop is left before the round is over.
     */
    method Iterate(maxTokens: nat) returns (ghost turn: Option<Turn>)
      requires Valid() && !finished && (maxTokens > 0 ==> printedTotal < maxTokens)
      modifies this, dynK, dynK.proposedBuf, dynK.acceptedBuf
      ensures Valid()
      ensures old(output) <= output && |output| <= |old(output)| + K_MAX + 1
      ensures printedTotal - old(printedTotal) == |output| - |old(output)|
      ensures |output| > |old(output)| || finished
      ensures maxTokens > 0 ==> printedTotal <= maxTokens
      ensures finished ==> Ended(maxTokens)
      ensures old(faulted) ==> faulted
      ensures (old(draftFailed) ==> draftFailed) && (old(draftMuted) ==> draftMuted)
      ensures turn.None? ==> finished && dynK.history == old(dynK.history)
      ensures turn.Some? ==>
        && dynK.history == old(dynK.history) + RoundOf(turn.value) && TurnOk(target, turn.value)
        && turn.value.text == old(Text()) + [target.Next(old(Text()))] && turn.value.text <= Text()
      ensures turn.Some? && turn.value.accepted.Some? ==>
        Text() == turn.value.text + Kept(target, turn.value.text, turn.value.toks, turn.value.accepted.value)
      ensures turn.Some? && turn.value.accepted.None? && turn.value.toks != [] ==>
        finished && (faulted || (maxTokens > 0 && printedTotal == maxTokens))
      ensures turn.Some? && turn.value.toks == [] ==> Text() == turn.value.text
      ensures turn.Some? && !draftFailed && !draftMuted ==>
        Drafted(draftNet, target, turn.value.text, turn.value.toks, old(dynK.k))
    {
      KBounds(dynK.history);
      var t0, toks, fed := Lead(maxTokens);
      ghost var text := Text();
      turn := if fed then Some(Turn(text, toks, None)) else None;
      if toks != [] {
        var accepted, done := Settle(t0, toks, maxTokens);
        if done {
          dynK.Record(|toks|, accepted);
          turn := Some(Turn(text, toks, Some(accepted)));
        }
      }
    }

    /**
     spec_v2_step. However the draft behaves and whatever fails, the text written so far is
     what plain greedy decoding writes, and it is all of it once the step finishes without a
     failure and within the token budget. The draft length follows the rounds as they happened:
     `turns` are the passes of the loop, each proposing what the draft network chooses.
     */
    method Step(maxThisCall: int, maxTokens: nat) returns (tokensPrinted: nat, ghost turns: seq<Turn>)
      requires Valid()
      modifies this, dynK, dynK.proposedBuf, dynK.acceptedBuf
      ensures Valid()
      ensures old(output) <= output && |output| == |old(output)| + tokensPrinted
      ensures output == target.Plain(prompt, |output|)
      ensures printedTotal == old(printedTotal) + tokensPrinted
      ensures maxTokens > 0 ==> printedTotal <= maxTokens || printedTotal == old(printedTotal)
      ensures tokensPrinted > 0 ==> tokensPrinted < maxThisCall + K_MAX + 1
      ensures finished || tokensPrinted >= maxThisCall || (maxTokens > 0 && printedTotal >= maxTokens)
      ensures old(finished) ==> finished && tokensPrinted == 0 && faulted == old(faulted)
      ensures !old(finished) && finished && !faulted && (maxTokens == 0 || printedTotal < maxTokens) ==>
                forall m :: |output| <= m ==> target.Plain(prompt, m) == output
      ensures Logged(target, old(dynK.history), turns, dynK.history, Text())
      ensures !draftFailed && !draftMuted ==> AllDrafted(draftNet, target, old(dynK.history), turns)
      ensures forall i :: 0 <= i < |turns| && Abandoned(turns[i]) ==>
        i == |turns| - 1 && finished && (faulted || (maxTokens > 0 && printedTotal == maxTokens))
    {
      tokensPrinted, turns := 0, [];
      while tokensPrinted < maxThisCall && (maxTokens == 0 || printedTotal < maxTokens) && !finished
        invariant Valid()
        invariant old(output) <= output && |output| == |old(output)| + tokensPrinted
        invariant printedTotal == old(printedTotal) + tokensPrinted
        invariant maxTokens > 0 ==> printedTotal <= maxTokens || tokensPrinted == 0
        invariant tokensPrinted > 0 ==> tokensPrinted < maxThisCall + K_MAX + 1
        invariant old(finished) ==> finished && tokensPrinted == 0 && faulted == old(faulted)
        invariant !old(finished) && finished ==> Ended(maxTokens)
        invariant Logged(target, old(dynK.history), turns, dynK.history, Text())
        invariant !draftFailed && !draftMuted ==> AllDrafted(draftNet, target, old(dynK.history), turns)
        invariant forall i :: 0 <= i < |turns| && Abandoned(turns[i]) ==>
          i == |turns| - 1 && finished && (faulted || (maxTokens > 0 && printedTotal == maxTokens))
        decreases !finished, maxThisCall - tokensPrinted
      {
        var before := printedTotal;
        ghost var text := Text();
        ghost var turn := Iterate(maxTokens);
        tokensPrinted := tokensPrinted + (printedTotal - before);
        if turn.Some? {
          LoggedNext(target, old(dynK.history), turns, text, turn.value, Text());
          if !draftFailed && !draftMuted {
            DraftedNext(draftNet, target, old(dynK.history), turns, turn.value);
          }
          turns := turns + [turn.value];
        } else {
          LoggedGrows(target, old(dynK.history), turns, dynK.history, text, Text());
        }
      }
      target.GreedyIsPlain(prompt, output);
      if !old(finished) && finished && !faulted && (maxTokens == 0 || printedTotal < maxTokens) {
        forall m | |output| <= m ensures target.Plain(prompt, m) == output {
          target.PlainEnds(prompt, output, m);
        }
      }
    }
  }

  /** The tokens a list of calls asks for. */
  function Asked(calls: seq<int>): nat {
    if calls == [] then 0
    else Asked(calls[..|calls| - 1]) + if calls[|calls| - 1] > 0 then calls[|calls| - 1] else 0
  }

  /**
   A whole session: any sequence of calls writes a prefix of plain greedy decoding. As long as
   nothing fails it writes what the calls ask for, or up to the budget, or all there is.
   */
  method Session(target: Target, draftNet: Net, prompt: seq<Token>, calls: seq<int>, maxTokens: nat)
    returns (output: seq<Token>, ghost faulted: bool)
    ensures output == target.Plain(prompt, |output|)
    ensures maxTokens > 0 ==> |output| <= maxTokens
    ensures !faulted ==>
      || |output| >= Asked(calls) || (maxTokens > 0 && |output| == maxTokens)
      || forall m :: |output| <= m ==> target.Plain(prompt, m) == output
  {
    var s := new SpecV2(target, draftNet, prompt);
    for i := 0 to |calls|
      invariant s.Valid() && s.target == target && s.prompt == prompt
      invariant fresh(s) && fresh(s.dynK) && fresh(s.dynK.proposedBuf) && fresh(s.dynK.acceptedBuf)
      invariant s.printedTotal == |s.output|
      invariant maxTokens > 0 ==> s.printedTotal <= maxTokens
      invariant !s.finished && (maxTokens == 0 || s.printedTotal < maxTokens) ==> |s.output| >= Asked(calls[..i])
      invariant s.finished && !s.faulted && (maxTokens == 0 || s.printedTotal < maxTokens) ==>
        forall m :: |s.output| <= m ==> target.Plain(prompt, m) == s.output
    {
      assert calls[..i + 1][..i] == calls[..i];
      var printed, turns := s.Step(calls[i], maxTokens);
    }
    assert calls[..|calls|] == calls;
    target.GreedyIsPlain(prompt, s.output);
    output, faulted := s.output, s.faulted;
  }
}
