/**
 The adaptive draft length of speculative decoding V2.

 The controller keeps two ring buffers of 24 slots. The specification does not mention them:
 it is a function of the whole history of (proposed, accepted) pairs recorded so far.
 */
module DynamicK {
  const WINDOW := 24
  const K_MIN := 2
  const K_MAX := 12
  const K_INIT := 2
  const WARMUP := 32

  datatype Round = Round(proposed: nat, accepted: nat)

  function Proposed(h: seq<Round>): nat {
    if h == [] then 0 else Proposed(h[..|h| - 1]) + h[|h| - 1].proposed
  }

  function Accepted(h: seq<Round>): nat {
    if h == [] then 0 else Accepted(h[..|h| - 1]) + h[|h| - 1].accepted
  }

  /** Tokens credited to the warm-up: the accepted ones and one correction per rejected round. */
  function Seen(h: seq<Round>): nat {
    if h == [] then 0
    else
      var last := h[|h| - 1];
      Seen(h[..|h| - 1]) + last.accepted + (if last.proposed > last.accepted then 1 else 0)
  }

  /** The acceptance rate over a window; 0 when nothing was proposed. */
  function Rate(window: seq<Round>): real {
    if Proposed(window) > 0 then Accepted(window) as real / Proposed(window) as real else 0.0
  }

  function Last(h: seq<Round>): seq<Round>
    requires |h| >= WINDOW
  {
    h[|h| - WINDOW..]
  }

  /** One adjustment of k by the acceptance rate of a full window. */
  function Adjust(k: int, rate: real): int {
    if rate > 0.85 && k < K_MAX then k + 1
    else if rate < 0.55 && k > K_MIN then k - 1
    else k
  }

  /** The value of k after a history of rounds. */
  function KAfter(h: seq<Round>): int {
    if h == [] then K_INIT
    else
      var k := KAfter(h[..|h| - 1]);
      if Seen(h) < WARMUP || |h| < WINDOW then k else Adjust(k, Rate(Last(h)))
  }

  /** k never leaves 2..12, and stays at 2 until a full window has been recorded. */
  lemma {:induction false} KBounds(h: seq<Round>)
    ensures 2 <= KAfter(h) <= 12
    ensures |h| < 24 ==> KAfter(h) == 2
  {
    if h != [] { KBounds(h[..|h| - 1]); }
  }

  /** k moves by at most one per round. */
  lemma {:induction false} KStep(h: seq<Round>, r: Round)
    ensures -1 <= KAfter(h + [r]) - KAfter(h) <= 1
  {
    var h' := h + [r];
    assert h'[..|h|] == h;
    assert KAfter(h') == KAfter(h) || KAfter(h') == Adjust(KAfter(h), Rate(Last(h')));
  }

  /** After the warm-up, k follows the last 24 rounds: up on more than 85 accepted in 100, down on fewer than 55. */
  lemma {:induction false} KFollows(h: seq<Round>, r: Round)
    requires |h| + 1 >= WINDOW && Seen(h + [r]) >= WARMUP && Proposed(Last(h + [r])) > 0
    ensures
      var p, a := Proposed(Last(h + [r])), Accepted(Last(h + [r]));
      && (100 * a > 85 * p ==> KAfter(h + [r]) == if KAfter(h) < K_MAX then KAfter(h) + 1 else K_MAX)
      && (100 * a < 55 * p ==> KAfter(h + [r]) == if KAfter(h) > K_MIN then KAfter(h) - 1 else K_MIN)
      && (55 * p <= 100 * a <= 85 * p ==> KAfter(h + [r]) == KAfter(h))
  {
    var h' := h + [r];
    assert h'[..|h|] == h;
    KBounds(h);
    RateSplits(Accepted(Last(h')), Proposed(Last(h')));
  }

  lemma RateSplits(a: nat, p: nat)
    requires p > 0
    ensures 100 * a > 85 * p <==> a as real / p as real > 0.85
    ensures 100 * a < 55 * p <==> a as real / p as real < 0.55
  {
    QuotientAbove(a as real, p as real, 0.85);
    QuotientBelow(a as real, p as real, 0.55);
  }

  lemma QuotientAbove(x: real, y: real, c: real)
    requires y > 0.0
    ensures x / y > c <==> x > c * y
  {
    var q := x / y;
    assert q * y == x;
    if q > c { assert (q - c) * y > 0.0; } else { assert (c - q) * y >= 0.0; }
  }

  lemma QuotientBelow(x: real, y: real, c: real)
    requires y > 0.0
    ensures x / y < c <==> x < c * y
  {
    var q := x / y;
    assert q * y == x;
    if q < c { assert (c - q) * y > 0.0; } else { assert (q - c) * y >= 0.0; }
  }

  /** Rounds in which all of at least two proposals were accepted. */
  ghost predicate AllAccepted(h: seq<Round>) {
    forall i :: 0 <= i < |h| ==> h[i].proposed == h[i].accepted >= 2
  }

  /** Rounds in which some proposals were made and none was accepted. */
  ghost predicate NoneAccepted(h: seq<Round>) {
    forall i :: 0 <= i < |h| ==> h[i].proposed > 0 && h[i].accepted == 0
  }

  lemma {:induction false} SumsOf(h: seq<Round>)
    ensures AllAccepted(h) ==> Accepted(h) == Proposed(h) >= 2 * |h|
    ensures NoneAccepted(h) ==> Accepted(h) == 0 && Proposed(h) >= |h|
  {
    if h != [] { SumsOf(h[..|h| - 1]); }
  }

  lemma {:induction false} SeenGrows(h: seq<Round>, t: seq<Round>)
    ensures Seen(h + t) >= Seen(h)
    ensures AllAccepted(t) ==> Seen(h + t) >= Seen(h) + 2 * |t|
    ensures NoneAccepted(t) ==> Seen(h + t) >= Seen(h) + |t|
  {
    if t == [] {
      assert h + t == h;
    } else {
      SeenGrows(h, t[..|t| - 1]);
      assert (h + t)[..|h + t| - 1] == h + t[..|t| - 1];
    }
  }

  /** Whatever came before, 33 rounds of full acceptance bring k to its maximum, and more keep it there. */
  lemma {:induction false} FullAcceptanceReachesMax(h: seq<Round>, t: seq<Round>)
    requires AllAccepted(t) && |t| >= 23
    ensures KAfter(h + t) == 12 || KAfter(h + t) >= 2 + |t| - 23
  {
    KBounds(h + t);
    if |t| >= WINDOW {
      var n := |t| - 1;
      FullAcceptanceReachesMax(h, t[..n]);
      SeenGrows(h, t);
      assert h + t == h + t[..n] + [t[n]];
      assert Last(h + t) == t[|t| - WINDOW..];
      SumsOf(t[|t| - WINDOW..]);
      KFollows(h + t[..n], t[n]);
    }
  }

  /** Whatever came before, 41 rounds without any acceptance bring k to its minimum, and more keep it there. */
  lemma {:induction false} NoAcceptanceReachesMin(h: seq<Round>, t: seq<Round>)
    requires NoneAccepted(t) && |t| >= 31
    ensures KAfter(h + t) == 2 || KAfter(h + t) <= 12 - (|t| - 31)
  {
    KBounds(h + t);
    if |t| >= WARMUP {
      var n := |t| - 1;
      NoAcceptanceReachesMin(h, t[..n]);
      SeenGrows(h, t);
      assert h + t == h + t[..n] + [t[n]];
      assert Last(h + t) == t[|t| - WINDOW..];
      SumsOf(t[|t| - WINDOW..]);
      KFollows(h + t[..n], t[n]);
    }
  }

  lemma {:induction false} SumsConcat(a: seq<Round>, b: seq<Round>)
    ensures Proposed(a + b) == Proposed(a) + Proposed(b)
    ensures Accepted(a + b) == Accepted(a) + Accepted(b)
  {
    if b == [] {
      assert a + b == a;
    } else {
      SumsConcat(a, b[..|b| - 1]);
      assert (a + b)[..|a + b| - 1] == a + b[..|b| - 1];
    }
  }

  /** The rounds held by a pair of buffers, slot by slot. */
  ghost function Zip(proposed: seq<nat>, accepted: seq<nat>): (ring: seq<Round>)
    requires |proposed| == |accepted|
    ensures |ring| == |proposed|
    ensures forall i :: 0 <= i < |ring| ==> ring[i] == Round(proposed[i], accepted[i])
  {
    seq(|proposed|, i requires 0 <= i < |proposed| => Round(proposed[i], accepted[i]))
  }

  /**
   The buffers, with the next slot to write at `idx`, hold the latest rounds of `h`: all of
   them while the window fills up, and after that the last 24 rotated by `idx`.
   */
  ghost predicate Holds(ring: seq<Round>, idx: nat, h: seq<Round>) {
    && |ring| == WINDOW
    && idx < WINDOW
    && if |h| < WINDOW then idx == |h| && ring[..idx] == h
       else Last(h) == ring[idx..] + ring[..idx]
  }

  lemma HoldsWrite(ring: seq<Round>, idx: nat, h: seq<Round>, r: Round)
    requires Holds(ring, idx, h)
    ensures Holds(ring[idx := r], if idx + 1 == WINDOW then 0 else idx + 1, h + [r])
  {
    var ring' := ring[idx := r];
    var h' := h + [r];
    if |h| + 1 < WINDOW {
      assert ring'[..idx + 1] == h';
    } else if |h| < WINDOW {
      assert ring' == h';
    } else {
      assert Last(h') == Last(h)[1..] + [r];
    }
  }

  /** Over a full window the sums of the ring are those of the last 24 rounds. */
  lemma RotatedSums(ring: seq<Round>, idx: nat, h: seq<Round>)
    requires Holds(ring, idx, h) && |h| >= WINDOW
    ensures Proposed(ring) == Proposed(Last(h)) && Accepted(ring) == Accepted(Last(h))
  {
    assert ring == ring[..idx] + ring[idx..];
    SumsConcat(ring[idx..], ring[..idx]);
    SumsConcat(ring[..idx], ring[idx..]);
  }

  class DynK {
    var k: int
    const proposedBuf: array<nat>
    const acceptedBuf: array<nat>
    var idx: nat
    var count: nat
    var tokensSeen: nat
    ghost var history: seq<Round>

    ghost predicate Valid()
      reads this, proposedBuf, acceptedBuf
    {
      && proposedBuf.Length == WINDOW && acceptedBuf.Length == WINDOW
      && proposedBuf != acceptedBuf
      && Holds(Zip(proposedBuf[..], acceptedBuf[..]), idx, history)
      && count == (if |history| < WINDOW then |history| else WINDOW)
      && tokensSeen == Seen(history)
      && k == KAfter(history)
    }

    constructor ()
      ensures Valid() && history == [] && fresh(proposedBuf) && fresh(acceptedBuf)
    {
      k := K_INIT;
      proposedBuf := new nat[WINDOW](_ => 0);
      acceptedBuf := new nat[WINDOW](_ => 0);
      idx, count, tokensSeen := 0, 0, 0;
      history := [];
    }

    /** DynK::record. Valid() makes k the function KAfter of the extended history. */
    method Record(proposed: nat, accepted: nat)
      requires Valid()
      modifies this, proposedBuf, acceptedBuf
      ensures Valid() && history == old(history) + [Round(proposed, accepted)]
    {
      tokensSeen := tokensSeen + accepted + (if proposed > accepted then 1 else 0);
      Push(proposed, accepted);
      if tokensSeen < WARMUP { return; }
      if count < WINDOW { return; }
      var rate := WindowRate();
      Retune(rate);
    }

    /** The threshold test of record. */
    method Retune(rate: real)
      modifies this`k
      ensures k == Adjust(old(k), rate)
    {
      if rate > 0.85 && k < K_MAX {
        k := k + 1;
      } else if rate < 0.55 && k > K_MIN {
        k := k - 1;
      }
    }

    /** The buffer update of record: overwrite the oldest slot and advance. */
    method Push(proposed: nat, accepted: nat)
      requires proposedBuf.Length == WINDOW && acceptedBuf.Length == WINDOW && proposedBuf != acceptedBuf
      requires Holds(Zip(proposedBuf[..], acceptedBuf[..]), idx, history)
      requires count == if |history| < WINDOW then |history| else WINDOW
      modifies proposedBuf, acceptedBuf, this`idx, this`count, this`history
      ensures history == old(history) + [Round(proposed, accepted)]
      ensures history[..|history| - 1] == old(history)
      ensures Holds(Zip(proposedBuf[..], acceptedBuf[..]), idx, history)
      ensures count == if |history| < WINDOW then |history| else WINDOW
    {
      ghost var ring := Zip(proposedBuf[..], acceptedBuf[..]);
      HoldsWrite(ring, idx, history, Round(proposed, accepted));
      proposedBuf[idx] := proposed;
      acceptedBuf[idx] := accepted;
      assert Zip(proposedBuf[..], acceptedBuf[..]) == ring[idx := Round(proposed, accepted)];
      idx := (idx + 1) % WINDOW;
      if count < WINDOW { count := count + 1; }
      history := history + [Round(proposed, accepted)];
    }

    /** The sums and the quotient of record. */
    method WindowRate() returns (rate: real)
      requires proposedBuf.Length == WINDOW && acceptedBuf.Length == WINDOW
      requires Holds(Zip(proposedBuf[..], acceptedBuf[..]), idx, history)
      requires |history| >= WINDOW
      ensures rate == Rate(Last(history))
    {
      var sp, sa := 0, 0;
      ghost var ring := Zip(proposedBuf[..], acceptedBuf[..]);
      for i := 0 to WINDOW
        invariant sp == Proposed(ring[..i]) && sa == Accepted(ring[..i])
      {
        assert ring[..i + 1][..i] == ring[..i];
        sp := sp + proposedBuf[i];
        sa := sa + acceptedBuf[i];
      }
      assert ring[..WINDOW] == ring;
      RotatedSums(ring, idx, history);
      rate := if sp > 0 then sa as real / sp as real else 0.0;
    }
  }
}
