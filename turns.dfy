/** `nextTurn` (base.js:270-277): the turn passes to the next player in
    seat order, skipping every player who holds no node once the board is
    full. */
module Turns {
  import opened BoardState

  /** Seat `i` loses its turn: it holds nothing and the board is full. */
  predicate Skipped(s: GraphState, i: nat)
    requires Inv(s) && i < |s.players|
  {
    s.playerCounts[s.players[i]] == 0 && Full(s)
  }

  /** How many single steps of the seat rotation lead from seat `i` to
      seat `t`: between 1 and `n` (a whole round to come back to `i`). */
  function Dist(i: nat, t: nat, n: nat): (d: nat)
    requires i < n && t < n
    ensures 1 <= d <= n
  {
    if t > i then t - i else t - i + n
  }

  /** Every seat strictly after seat `i` and before seat `r`, in seat
      order, is skipped. */
  predicate SkippedBetween(s: GraphState, i: nat, r: nat)
    requires Inv(s) && i < |s.players| && r < |s.players|
  {
    forall t :: 0 <= t < |s.players| && Dist(i, t, |s.players|) < Dist(i, r, |s.players|) ==> Skipped(s, t)
  }

  /** The seat after seat `i`, as `(currIndex + 1) % players.length`. */
  function Succ(i: nat, n: nat): (j: nat)
    requires i < n
    ensures j < n
    ensures j == if i + 1 < n then i + 1 else 0
  {
    (i + 1) % n
  }

  /** The do-while loop of `nextTurn` from seat `i`, allowed `fuel` more
      rounds after the first. */
  function Advance(s: GraphState, i: nat, fuel: nat): (r: nat)
    requires Inv(s) && i < |s.players|
    ensures r < |s.players|
    decreases fuel
  {
    var j := Succ(i, |s.players|);
    if fuel == 0 || !Skipped(s, j) then j else Advance(s, j, fuel - 1)
  }

  /** The seat `nextTurn` hands the turn to. A whole round of seats is
      enough fuel: `NextTurnPicksFirstLive` shows the loop stops within it. */
  function NextTurnIndex(s: GraphState): nat
    requires Inv(s)
  {
    Advance(s, s.currIndex, |s.players|)
  }

  /** The board after `nextTurn`. */
  function NextTurn(s: GraphState): (r: GraphState)
    requires Inv(s)
    ensures Inv(r) && SameBoard(r, s.(currIndex := r.currIndex, currPlayer := r.currPlayer))
    ensures r.count == s.count && r.player == s.player && r.playerCounts == s.playerCounts
    ensures r.toProcess == s.toProcess && r.overflow == s.overflow
  {
    var k := NextTurnIndex(s);
    s.(currIndex := k, currPlayer := s.players[k])
  }

  /** The seat `k` steps of the rotation after seat `i`. */
  function Rot(i: nat, k: nat, n: nat): (j: nat)
    requires i < n && k <= n
    ensures j < n
  {
    if i + k < n then i + k else i + k - n
  }

  /** Stepping `k` seats on from `i` and measuring the distance back gives
      `k`; stepping the distance to `t` lands on `t`; one more step is the
      successor seat. */
  lemma RotFacts(i: nat, k: nat, n: nat, t: nat)
    requires i < n && 1 <= k <= n && t < n
    ensures Dist(i, Rot(i, k, n), n) == k
    ensures Rot(i, Dist(i, t, n), n) == t
    ensures Succ(Rot(i, k - 1, n), n) == Rot(i, k, n)
  {
  }

  lemma DistSucc(i: nat, t: nat, n: nat)
    requires i < n && t < n && t != Succ(i, n)
    ensures Dist(i, t, n) == Dist(Succ(i, n), t, n) + 1
  {
  }

  /** Starting after seat `i`, when some seat `q` within reach is not
      skipped, the loop stops at a seat that is not skipped, no further
      than `q`, and every seat it passes on the way is skipped. */
  lemma {:induction false} AdvanceIsFirstLive(s: GraphState, i: nat, fuel: nat, q: nat)
    requires Inv(s) && i < |s.players| && q < |s.players|
    requires !Skipped(s, q) && Dist(i, q, |s.players|) <= fuel + 1
    ensures !Skipped(s, Advance(s, i, fuel))
    ensures Dist(i, Advance(s, i, fuel), |s.players|) <= Dist(i, q, |s.players|)
    ensures SkippedBetween(s, i, Advance(s, i, fuel))
    decreases fuel
  {
    var n := |s.players|;
    var j := Succ(i, n);
    if fuel == 0 || !Skipped(s, j) {
      if q != j { DistSucc(i, q, n); }
    } else {
      assert q != j;
      DistSucc(i, q, n);
      AdvanceIsFirstLive(s, j, fuel - 1, q);
      var r := Advance(s, j, fuel - 1);
      assert r != j;
      DistSucc(i, r, n);
      forall t | 0 <= t < n && Dist(i, t, n) < Dist(i, r, n) ensures Skipped(s, t) {
        if t != j { DistSucc(i, t, n); }
      }
    }
  }

  /** `nextTurn` hands the turn to the first seat after the current one,
      in seat order, whose player is not skipped; on a board with at least
      one node such a seat always exists, so the loop ends. */
  lemma NextTurnPicksFirstLive(s: GraphState)
    requires Inv(s) && |s.count| > 0
    ensures !Skipped(s, NextTurnIndex(s))
    ensures SkippedBetween(s, s.currIndex, NextTurnIndex(s))
  {
    var n := |s.players|;
    var q: nat;
    if Full(s) {
      FullBoardHasLivePlayer(s);
      q :| 0 <= q < n && s.playerCounts[s.players[q]] > 0;
    } else {
      q := Succ(s.currIndex, n);
    }
    AdvanceIsFirstLive(s, s.currIndex, n, q);
  }

  /** Step `k` of the loop of `nextTurn`, for `k` up to the seat the turn
      goes to: the seat reached is the successor of the one before, and it
      is skipped exactly when it is not yet that seat. */
  lemma NextTurnStep(s: GraphState, k: nat)
    requires Inv(s) && |s.count| > 0
    requires 1 <= k <= Dist(s.currIndex, NextTurnIndex(s), |s.players|)
    ensures Succ(Rot(s.currIndex, k - 1, |s.players|), |s.players|) == Rot(s.currIndex, k, |s.players|)
    ensures Skipped(s, Rot(s.currIndex, k, |s.players|)) <==> Rot(s.currIndex, k, |s.players|) != NextTurnIndex(s)
  {
    var n := |s.players|;
    var t := NextTurnIndex(s);
    NextTurnPicksFirstLive(s);
    RotFacts(s.currIndex, k, n, t);
    var r := Rot(s.currIndex, k, n);
    if r != t {
      assert k != Dist(s.currIndex, t, n);
    }
  }

  /** Before the board fills up, the turn simply passes to the next seat. */
  lemma NextTurnBeforeFull(s: GraphState)
    requires Inv(s) && !Full(s)
    ensures NextTurnIndex(s) == Succ(s.currIndex, |s.players|)
  {
  }
}
