/**
 The part of llama.cpp that the decoding code relies on.

 A KV cache is the list of its cells in the order in which they were decoded, each with the
 position it was decoded at. A network maps the cells a token attends to (itself last) to
 that token's row of logits. Nothing else is assumed of a network.
 */
module Llama {
  import opened Wrappers

  type Token = int
  const TOKEN_NULL: Token := -1

  datatype Cell = Cell(pos: int, token: Token)

  type Logits = seq<real>
  type Net = seq<Cell> -> Logits

  /** The cells of `tokens` decoded at consecutive positions from `start` on. */
  function CellsFrom(start: int, tokens: seq<Token>): (c: seq<Cell>)
    ensures |c| == |tokens|
    ensures forall i :: 0 <= i < |c| ==> c[i] == Cell(start + i, tokens[i])
  {
    seq(|tokens|, i requires 0 <= i < |tokens| => Cell(start + i, tokens[i]))
  }

  /** The cells of a cache holding exactly `tokens`, token i at position i. */
  function Cells(tokens: seq<Token>): seq<Cell> {
    CellsFrom(0, tokens)
  }

  /** The cells left by llama_memory_seq_rm over the positions from..until (exclusive). */
  function Remove(cells: seq<Cell>, from: int, until: int): (r: seq<Cell>) {
    if cells == [] then []
    else
      var rest := Remove(cells[..|cells| - 1], from, until);
      var last := cells[|cells| - 1];
      if from <= last.pos < until then rest else rest + [last]
  }

  lemma CellsAppend(s: seq<Token>, t: seq<Token>)
    ensures Cells(s + t) == Cells(s) + CellsFrom(|s|, t)
  {
  }

  /** Removing every position from `keep` on restores the cache of the first `keep` tokens. */
  lemma {:induction false} RemoveTail(tokens: seq<Token>, keep: nat, until: int)
    requires keep <= |tokens| <= until
    ensures Remove(Cells(tokens), keep, until) == Cells(tokens[..keep])
  {
    var c := Cells(tokens);
    if |tokens| == 0 {
      assert tokens[..keep] == tokens;
    } else if keep < |tokens| {
      var shorter := tokens[..|tokens| - 1];
      RemoveTail(shorter, keep, until);
      assert c[..|c| - 1] == Cells(shorter);
      assert shorter[..keep] == tokens[..keep];
    } else {
      RemoveNothing(c, keep, until);
      assert tokens[..keep] == tokens;
    }
  }

  lemma {:induction false} RemoveNothing(cells: seq<Cell>, from: int, until: int)
    requires forall i :: 0 <= i < |cells| ==> !(from <= cells[i].pos < until)
    ensures Remove(cells, from, until) == cells
  {
    if cells != [] {
      RemoveNothing(cells[..|cells| - 1], from, until);
      assert cells == cells[..|cells| - 1] + [cells[|cells| - 1]];
    }
  }

  /** The lowest index holding the largest logit. */
  function ArgMax(row: Logits): (best: nat)
    requires row != []
    ensures best < |row|
    ensures forall i :: 0 <= i < |row| ==> row[i] <= row[best]
    ensures forall i :: 0 <= i < best ==> row[i] < row[best]
  {
    if |row| == 1 then 0
    else
      var b := ArgMax(row[..|row| - 1]);
      if row[|row| - 1] > row[b] then |row| - 1 else b
  }

  /** The greedy token for a row; a null pointer or an empty vocabulary gives the null token. */
  function Greedy(logits: Option<Logits>): (t: Token)
    ensures t == TOKEN_NULL <==> logits.None? || logits.value == []
  {
    if logits.None? || logits.value == [] then TOKEN_NULL else ArgMax(logits.value)
  }

  /** greedy_sample: one pass over the row, keeping the first maximum seen. */
  method GreedySample(logits: Option<Logits>) returns (t: Token)
    ensures t == Greedy(logits)
  {
    if logits.None? || |logits.value| <= 0 {
      return TOKEN_NULL;
    }
    var row := logits.value;
    var best := 0;
    var bestVal := row[0];
    for i := 1 to |row|
      invariant best < i && bestVal == row[best]
      invariant best == ArgMax(row[..i])
    {
      assert row[..i + 1][..i] == row[..i];
      if row[i] > bestVal {
        bestVal := row[i];
        best := i;
      }
    }
    assert row[..|row|] == row;
    return best;
  }
}
