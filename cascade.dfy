/** The splode cascade of base.js as functions on board values: one token
    placed and captured, a node firing into its neighbour list, and one
    step of the worklist. `Engine.Graph` is proved against these. Each
    function states what it does to tokens, owners and the worklist; the
    `...KeepsInv` lemmas show that each keeps the board invariant. */
module Cascade {
  import opened BoardState

  /** The tallies after a node owned by `from` passes to `to`: the old owner
      loses one unless it is the empty player, the new owner gains one. */
  function Transfer(tally: map<Player, int>, from: Player, to: Player): map<Player, int>
    requires from != Empty ==> from in tally
    requires to in tally
  {
    var t := if from != Empty then tally[from := tally[from] - 1] else tally;
    t[to := t[to] + 1]
  }

  /** One token onto node `m`, which passes to the current player: the
      bookkeeping shared by a firing (base.js:182-189) and a move
      (test.js:678-685). Only node `m` and the tallies change. */
  function Capture(s: GraphState, m: nat): (r: GraphState)
    requires Tracked(s) && m < |s.count|
    ensures SameBoard(r, s) && Tracked(r)
    ensures r.toProcess == s.toProcess && r.overflow == s.overflow
    ensures Sum(r.count) == Sum(s.count) + 1
    ensures r.count[m] == s.count[m] + 1 && r.player[m] == s.currPlayer
    ensures forall v :: 0 <= v < |s.count| && v != m ==>
      r.count[v] == s.count[v] && r.player[v] == s.player[v]
    ensures r.playerCounts.Keys == s.playerCounts.Keys
    ensures forall p :: p in s.playerCounts ==>
      r.playerCounts[p] == s.playerCounts[p]
        + (if s.player[m] != s.currPlayer && p == s.currPlayer then 1 else 0)
        - (if s.player[m] != s.currPlayer && p == s.player[m] && p != Empty then 1 else 0)
  {
    SumUpdate(s.count, m, s.count[m] + 1);
    var s1 := s.(count := s.count[m := s.count[m] + 1]);
    if s.player[m] == s.currPlayer then s1
    else
      s1.(player := s.player[m := s.currPlayer],
          playerCounts := Transfer(s.playerCounts, s.player[m], s.currPlayer))
  }

  /** A capture keeps every tally equal to the number of nodes its player
      owns, and so keeps the board invariant. */
  lemma CaptureKeepsInv(s: GraphState, m: nat)
    requires Inv(s) && m < |s.count|
    ensures Inv(Capture(s, m))
  {
    var r := Capture(s, m);
    if s.player[m] != s.currPlayer {
      forall p | p in s.players ensures r.playerCounts[p] == CountOf(r.player, p) {
        CountOfUpdate(s.player, m, s.currPlayer, p);
      }
    }
  }

  /** The loop of base.js:181-191 over the entries `l` of a neighbour list:
      each entry gets a token, passes to the current player and is pushed
      onto the worklist. Entries are handled front to back; the function
      peels the last one so that it follows the loop step by step. */
  function Distribute(s: GraphState, l: seq<nat>): (r: GraphState)
    requires Tracked(s)
    requires forall k :: 0 <= k < |l| ==> l[k] < |s.count|
    ensures SameBoard(r, s) && Tracked(r)
    ensures r.overflow == s.overflow
    ensures Sum(r.count) == Sum(s.count) + |l|
    ensures r.toProcess == s.toProcess + l
    decreases |l|
  {
    if l == [] then s
    else
      var init := l[..|l| - 1];
      var m := l[|l| - 1];
      var c := Capture(Distribute(s, init), m);
      assert l == init + [m];
      c.(toProcess := c.toProcess + [m])
  }

  /** One more entry of the list handled: what one round of the loop of
      base.js:181-191 does. */
  lemma DistributeSnoc(s: GraphState, l: seq<nat>, i: nat)
    requires Tracked(s) && i < |l|
    requires forall k :: 0 <= k < |l| ==> l[k] < |s.count|
    ensures var t := Capture(Distribute(s, l[..i]), l[i]);
      Distribute(s, l[..i + 1]) == t.(toProcess := t.toProcess + [l[i]])
  {
    assert l[..i + 1][..i] == l[..i];
  }

  /** Handing out tokens along a list of nodes keeps the board invariant. */
  lemma {:induction false} DistributeKeepsInv(s: GraphState, l: seq<nat>)
    requires Inv(s)
    requires forall k :: 0 <= k < |l| ==> l[k] < |s.count|
    ensures Inv(Distribute(s, l))
    decreases |l|
  {
    if l != [] {
      var init := l[..|l| - 1];
      var m := l[|l| - 1];
      DistributeKeepsInv(s, init);
      CaptureKeepsInv(Distribute(s, init), m);
      PushKeepsInv(Capture(Distribute(s, init), m), m);
    }
  }

  /** Pushing a node of the board onto the worklist keeps the invariant. */
  lemma PushKeepsInv(s: GraphState, m: nat)
    requires Inv(s) && m < |s.count|
    ensures Inv(s.(toProcess := s.toProcess + [m]))
  {
  }

  /** After `Distribute` every node of the list belongs to the current
      player and every other node keeps its owner. */
  lemma {:induction false} DistributeOwners(s: GraphState, l: seq<nat>)
    requires Tracked(s)
    requires forall k :: 0 <= k < |l| ==> l[k] < |s.count|
    ensures forall v :: 0 <= v < |s.count| ==>
      Distribute(s, l).player[v] == if v in l then s.currPlayer else s.player[v]
    decreases |l|
  {
    if l != [] {
      var init := l[..|l| - 1];
      var m := l[|l| - 1];
      assert l == init + [m];
      DistributeOwners(s, init);
    }
  }

  /** The node `splode` takes: the last element of the worklist. */
  function Last(q: seq<nat>): nat
    requires q != []
  {
    q[|q| - 1]
  }

  /** A node fires when it holds at least as many tokens as entries in its
      neighbour list (base.js:176); the list includes the node itself. */
  predicate Fires(s: GraphState, v: nat)
    requires Tracked(s) && v < |s.count|
  {
    |s.neighbors[v]| <= s.count[v]
  }

  /** What is left of the worklist once `splode` has popped its node: the
      rest, or nothing when the board already has a winner. */
  function Pending(s: GraphState): seq<nat>
    requires Tracked(s) && s.toProcess != []
  {
    if Winner(s) then [] else s.toProcess[..|s.toProcess| - 1]
  }

  /** The first half of `splode` (base.js:167-173): take the last node off
      the worklist, count the step, and empty the worklist if some player
      already owns every node. Tokens and owners do not change. */
  function Pop(s: GraphState): (r: GraphState)
    requires Tracked(s) && s.toProcess != []
    ensures SameBoard(r, s) && Tracked(r)
    ensures r.count == s.count && r.player == s.player && r.playerCounts == s.playerCounts
    ensures r.overflow == s.overflow + 1
    ensures r.toProcess == if Winner(s) then [] else s.toProcess[..|s.toProcess| - 1]
  {
    s.(toProcess := Pending(s), overflow := s.overflow + 1)
  }

  /** Popping keeps the invariant: what is left is a prefix of the worklist. */
  lemma PopKeepsInv(s: GraphState)
    requires Inv(s) && s.toProcess != []
    ensures Inv(Pop(s))
  {
    var q := Pop(s).toProcess;
    assert forall k :: 0 <= k < |q| ==> q[k] == s.toProcess[k];
  }

  /** The node about to fire gives up one token per entry of its
      neighbour list (base.js:177-178); nothing else changes and its count
      stays non-negative. */
  function Drain(s: GraphState, v: nat): (r: GraphState)
    requires Tracked(s) && v < |s.count| && Fires(s, v)
    ensures SameBoard(r, s) && Tracked(r)
    ensures Sum(r.count) == Sum(s.count) - |s.neighbors[v]|
    ensures r.count[v] == s.count[v] - |s.neighbors[v]| >= 0
    ensures forall u :: 0 <= u < |s.count| && u != v ==> r.count[u] == s.count[u]
    ensures r.player == s.player && r.playerCounts == s.playerCounts
    ensures r.toProcess == s.toProcess && r.overflow == s.overflow
  {
    var deg := |s.neighbors[v]|;
    SumUpdate(s.count, v, s.count[v] - deg);
    s.(count := s.count[v := s.count[v] - deg])
  }

  /** The second half of `splode` (base.js:176-191), for a node that holds
      enough tokens: it is drained, and each entry of its neighbour list
      gains one token, passes to the current player and is pushed. The
      total number of tokens does not change. */
  function Fire(s: GraphState, v: nat): (r: GraphState)
    requires Inv(s) && v < |s.count| && Fires(s, v)
    ensures SameBoard(r, s) && Tracked(r)
    ensures Sum(r.count) == Sum(s.count)
    ensures r.overflow == s.overflow
    ensures r.toProcess == s.toProcess + s.neighbors[v]
  {
    Distribute(Drain(s, v), s.neighbors[v])
  }

  /** A firing keeps the board invariant; in particular no count goes
      negative, because the node fires only when it can pay every entry. */
  lemma FireKeepsInv(s: GraphState, v: nat)
    requires Inv(s) && v < |s.count| && Fires(s, v)
    ensures Inv(Fire(s, v))
  {
    var d := Drain(s, v);
    assert Inv(d);
    DistributeKeepsInv(d, s.neighbors[v]);
  }

  /** After a firing every entry of the neighbour list belongs to the
      current player and every other node keeps its owner. */
  lemma FireOwners(s: GraphState, v: nat)
    requires Inv(s) && v < |s.count| && Fires(s, v)
    ensures forall u :: 0 <= u < |s.count| ==>
      Fire(s, v).player[u] == if u in s.neighbors[v] then s.currPlayer else s.player[u]
  {
    DistributeOwners(Drain(s, v), s.neighbors[v]);
  }

  /** One call of `splode` (base.js:165-194): the popped node is examined
      even when `hasWinner` has just emptied the worklist, and it refills
      the worklist if it fires. */
  function Splode(s: GraphState): (r: GraphState)
    requires Inv(s) && s.toProcess != []
    ensures SameBoard(r, s) && Tracked(r)
    ensures Sum(r.count) == Sum(s.count)
    ensures r.overflow == s.overflow + 1
    ensures var v := Last(s.toProcess);
      r.toProcess == Pending(s) + (if Fires(s, v) then s.neighbors[v] else [])
  {
    var v := Last(s.toProcess);
    var p := Pop(s);
    PopKeepsInv(s);
    if Fires(p, v) then Fire(p, v) else p
  }

  /** A cascade step keeps the board invariant. */
  lemma SplodeKeepsInv(s: GraphState)
    requires Inv(s) && s.toProcess != []
    ensures Inv(Splode(s))
  {
    PopKeepsInv(s);
    var v := Last(s.toProcess);
    if Fires(Pop(s), v) {
      FireKeepsInv(Pop(s), v);
    }
  }

  /** The fired node ends with its old count minus the length of its list
      plus the one token its self-link hands back, when the node is listed
      only once in its own list. */
  lemma {:induction false} FiringCount(s: GraphState, v: nat)
    requires Inv(s) && v < |s.count| && Fires(s, v)
    requires forall k :: 1 <= k < |s.neighbors[v]| ==> s.neighbors[v][k] != v
    ensures Fire(s, v).count[v] == s.count[v] - |s.neighbors[v]| + 1
  {
    DistributeCountAt(Drain(s, v), s.neighbors[v], v);
    OccurrencesSelf(s.neighbors[v], v);
  }

  /** A list that starts with `v` and does not repeat it holds `v` once. */
  lemma OccurrencesSelf(l: seq<nat>, v: nat)
    requires |l| >= 1 && l[0] == v
    requires forall k :: 1 <= k < |l| ==> l[k] != v
    ensures Occurrences(l, v) == 1
  {
    assert v !in l[1..] by {
      forall k | 0 <= k < |l| - 1 ensures l[1..][k] != v { assert l[1..][k] == l[k + 1]; }
    }
    OccurrencesNone(l[1..], v);
  }

  lemma {:induction false} OccurrencesNone(l: seq<nat>, v: nat)
    requires v !in l
    ensures Occurrences(l, v) == 0
  {
    if l != [] { OccurrencesNone(l[1..], v); }
  }

  /** The token count of node `v` after `Distribute` grows by the number of
      times `v` is in the list. */
  lemma {:induction false} DistributeCountAt(s: GraphState, l: seq<nat>, v: nat)
    requires Tracked(s) && v < |s.count|
    requires forall k :: 0 <= k < |l| ==> l[k] < |s.count|
    ensures Distribute(s, l).count[v] == s.count[v] + Occurrences(l, v)
    decreases |l|
  {
    if l != [] {
      var init := l[..|l| - 1];
      DistributeCountAt(s, init, v);
      OccurrencesSnoc(init, l[|l| - 1], v);
      assert init + [l[|l| - 1]] == l;
    }
  }

  /** How many times `v` is in `l`. */
  function Occurrences(l: seq<nat>, v: nat): nat
  {
    if l == [] then 0 else (if l[0] == v then 1 else 0) + Occurrences(l[1..], v)
  }

  lemma {:induction false} OccurrencesSnoc(l: seq<nat>, x: nat, v: nat)
    ensures Occurrences(l + [x], v) == Occurrences(l, v) + (if x == v then 1 else 0)
  {
    if l != [] {
      assert (l + [x])[1..] == l[1..] + [x];
      OccurrencesSnoc(l[1..], x, v);
    }
  }

  /** Once the current player owns every node a cascade step keeps it that
      way: `splode` only ever hands nodes to the current player. (The step
      still fires the popped node when it can, even though `hasWinner` has
      just emptied the rest of the worklist.) */
  lemma SplodeKeepsWinner(s: GraphState)
    requires Inv(s) && s.toProcess != []
    requires s.playerCounts[s.currPlayer] == |s.count|
    ensures Splode(s).playerCounts[s.currPlayer] == |s.count|
    ensures Winner(Splode(s))
  {
    var r := Splode(s);
    var v := Last(s.toProcess);
    PopKeepsInv(s);
    SplodeKeepsInv(s);
    if Fires(Pop(s), v) { FireOwners(Pop(s), v); }
    CountOfAll(s.player, s.currPlayer);
    assert forall u :: 0 <= u < |r.count| ==> r.player[u] == s.currPlayer;
    CountOfAll(r.player, s.currPlayer);
    assert r.players[r.currIndex] == s.currPlayer;
  }

  /** `stillProcessing` (base.js:155-160): clears the step counter when the
      worklist is empty and otherwise changes nothing. */
  function Settle(s: GraphState): (r: GraphState)
    ensures r.overflow == (if s.toProcess == [] then 0 else s.overflow)
    ensures r.(overflow := s.overflow) == s
  {
    if s.toProcess == [] then s.(overflow := 0) else s
  }

  /** Settling keeps the board invariant. */
  lemma SettleKeepsInv(s: GraphState)
    requires Inv(s)
    ensures Inv(Settle(s))
  {
  }

  /** Whether the current player may place a token on `t` (test.js:674):
      it is theirs or unclaimed. */
  predicate Playable(s: GraphState, t: nat)
    requires t < |s.player|
  {
    s.player[t] == s.currPlayer || s.player[t] == Empty
  }

  /** The placement of an accepted move (test.js:678-687): one more token on
      `t`, which passes to the current player, and a worklist of exactly
      `[t]`. */
  function Place(s: GraphState, t: nat): (r: GraphState)
    requires Tracked(s) && t < |s.count|
    ensures SameBoard(r, s) && Tracked(r)
    ensures r.overflow == s.overflow
    ensures Sum(r.count) == Sum(s.count) + 1
    ensures r.count[t] == s.count[t] + 1 && r.player[t] == s.currPlayer
    ensures forall v :: 0 <= v < |s.count| && v != t ==>
      r.count[v] == s.count[v] && r.player[v] == s.player[v]
    ensures r.playerCounts.Keys == s.playerCounts.Keys
    ensures forall p :: p in s.playerCounts ==>
      r.playerCounts[p] == s.playerCounts[p]
        + (if s.player[t] != s.currPlayer && p == s.currPlayer then 1 else 0)
        - (if s.player[t] != s.currPlayer && p == s.player[t] && p != Empty then 1 else 0)
    ensures r.toProcess == [t]
  {
    var c := Capture(s, t);
    c.(toProcess := [t])
  }

  /** A placement keeps the board invariant. */
  lemma PlaceKeepsInv(s: GraphState, t: nat)
    requires Inv(s) && t < |s.count|
    ensures Inv(Place(s, t))
  {
    CaptureKeepsInv(s, t);
  }
}
