/** The value held by one splode board (a `Graph` of base.js), with nodes
    addressed by their position in `nodes`, and the bookkeeping facts that
    relate the per-player tallies to the owners of the nodes. */
module BoardState {

  /** A player identity. Players are compared by identity only; their
      names and colours play no part in the game's rules. */
  type Player = int

  /** The global `empty` player, owner of every unclaimed node. */
  const Empty: Player := -1

  /** Everything a `Graph` records apart from its undo link `prev`. A node's
      list of neighbours starts with the node itself (the `Node`
      constructor pushes `this`), so its length is the degree plus one. */
  datatype GraphState = GraphState(
    count: seq<int>,                  // tokens on each node
    player: seq<Player>,              // owner of each node, Empty when unclaimed
    neighbors: seq<seq<nat>>,         // each node's neighbour list, self-link first
    players: seq<Player>,             // the players in turn order
    playerCounts: map<Player, int>,   // nodes owned by each player
    currIndex: int,                   // whose turn it is, as an index into players
    currPlayer: Player,               // players[currIndex]
    toProcess: seq<nat>,              // the cascade worklist, popped at its end
    overflow: int)                    // cascade steps taken since it was last empty

  /** Total of a sequence of token counts. */
  function Sum(s: seq<int>): int
  {
    if s == [] then 0 else s[0] + Sum(s[1..])
  }

  /** Number of nodes whose owner is `p`. */
  function CountOf(owner: seq<Player>, p: Player): nat
  {
    if owner == [] then 0
    else (if owner[0] == p then 1 else 0) + CountOf(owner[1..], p)
  }

  /** Number of claimed nodes. */
  function Occupied(owner: seq<Player>): nat
  {
    if owner == [] then 0
    else (if owner[0] != Empty then 1 else 0) + Occupied(owner[1..])
  }

  /** The sum of the tallies of `ps`, accumulated in order as `isFull` does. */
  function TallySum(ps: seq<Player>, tally: map<Player, int>): int
    requires forall i :: 0 <= i < |ps| ==> ps[i] in tally
  {
    if ps == [] then 0 else TallySum(ps[..|ps| - 1], tally) + tally[ps[|ps| - 1]]
  }

  predicate Distinct(ps: seq<Player>)
  {
    forall i, j :: 0 <= i < j < |ps| ==> ps[i] != ps[j]
  }

  /** What the game requires of its list of players: at least one (the
      constructor reads players[0] and turns advance modulo the length),
      no player twice (the tallies are a map keyed by player), and none of
      them the `empty` player. */
  predicate ValidPlayers(ps: seq<Player>)
  {
    |ps| >= 1 && Distinct(ps) && Empty !in ps
  }

  /** The invariant of every board the game can reach. */
  ghost predicate Inv(s: GraphState)
  {
    var n := |s.count|;
    && |s.player| == n
    && |s.neighbors| == n
    && (forall v :: 0 <= v < n ==> s.count[v] >= 0)
    && (forall v :: 0 <= v < n ==> |s.neighbors[v]| >= 1 && s.neighbors[v][0] == v)
    && (forall v, k :: 0 <= v < n && 0 <= k < |s.neighbors[v]| ==> s.neighbors[v][k] < n)
    && ValidPlayers(s.players)
    && (forall v :: 0 <= v < n ==> s.player[v] == Empty || s.player[v] in s.players)
    && (forall p :: p in s.playerCounts <==> p in s.players)
    && (forall p :: p in s.players ==> s.playerCounts[p] == CountOf(s.player, p))
    && 0 <= s.currIndex < |s.players|
    && s.currPlayer == s.players[s.currIndex]
    && (forall k :: 0 <= k < |s.toProcess| ==> s.toProcess[k] < n)
    && s.overflow >= 0
  }

  /** The part of the invariant that the bookkeeping of one step needs for
      its indexing and tally lookups to make sense: every player, the
      current player and every owner has a tally. */
  predicate Tracked(s: GraphState)
  {
    && |s.player| == |s.count|
    && |s.neighbors| == |s.count|
    && (forall i :: 0 <= i < |s.players| ==> s.players[i] in s.playerCounts)
    && s.currPlayer in s.playerCounts
    && (forall v :: 0 <= v < |s.player| ==> s.player[v] == Empty || s.player[v] in s.playerCounts)
  }

  /** Two values of the same board: same nodes, adjacency, players and turn;
      they may differ in tokens, owners, tallies, worklist and step count. */
  predicate SameBoard(a: GraphState, b: GraphState)
  {
    && |a.count| == |b.count|
    && a.neighbors == b.neighbors
    && a.players == b.players
    && a.currIndex == b.currIndex
    && a.currPlayer == b.currPlayer
  }

  /** `hasWinner`: some player's tally equals the number of nodes. */
  predicate Winner(s: GraphState)
    requires Tracked(s)
  {
    exists i :: 0 <= i < |s.players| && s.playerCounts[s.players[i]] == |s.count|
  }

  /** `isFull`: the tallies add up to the number of nodes. */
  predicate Full(s: GraphState)
    requires Tracked(s)
  {
    TallySum(s.players, s.playerCounts) == |s.count|
  }

  // ---------------------------------------------------------------------
  // Counting lemmas

  lemma {:induction false} SumUpdate(s: seq<int>, i: nat, x: int)
    requires i < |s|
    ensures Sum(s[i := x]) == Sum(s) - s[i] + x
  {
    if i > 0 {
      assert s[i := x][1..] == s[1..][i - 1 := x];
      SumUpdate(s[1..], i - 1, x);
    } else {
      assert s[i := x][1..] == s[1..];
    }
  }

  lemma {:induction false} SumAppend(s: seq<int>, x: int)
    ensures Sum(s + [x]) == Sum(s) + x
  {
    if s != [] {
      assert (s + [x])[1..] == s[1..] + [x];
      SumAppend(s[1..], x);
    }
  }

  lemma {:induction false} SumRemove(s: seq<int>, i: nat)
    requires i < |s|
    ensures Sum(s[..i] + s[i + 1..]) == Sum(s) - s[i]
  {
    if i > 0 {
      assert (s[..i] + s[i + 1..])[1..] == s[1..][..i - 1] + s[1..][i..];
      SumRemove(s[1..], i - 1);
    } else {
      assert s[..i] + s[i + 1..] == s[1..];
    }
  }

  lemma {:induction false} CountOfUpdate(o: seq<Player>, m: nat, x: Player, p: Player)
    requires m < |o|
    ensures CountOf(o[m := x], p)
         == CountOf(o, p) - (if o[m] == p then 1 else 0) + (if x == p then 1 else 0)
  {
    if m > 0 {
      assert o[m := x][1..] == o[1..][m - 1 := x];
      CountOfUpdate(o[1..], m - 1, x, p);
    } else {
      assert o[m := x][1..] == o[1..];
    }
  }

  lemma {:induction false} CountOfAppend(o: seq<Player>, x: Player, p: Player)
    ensures CountOf(o + [x], p) == CountOf(o, p) + (if x == p then 1 else 0)
  {
    if o != [] {
      assert (o + [x])[1..] == o[1..] + [x];
      CountOfAppend(o[1..], x, p);
    }
  }

  lemma {:induction false} CountOfRemove(o: seq<Player>, v: nat, p: Player)
    requires v < |o|
    ensures CountOf(o[..v] + o[v + 1..], p) == CountOf(o, p) - (if o[v] == p then 1 else 0)
  {
    if v > 0 {
      assert (o[..v] + o[v + 1..])[1..] == o[1..][..v - 1] + o[1..][v..];
      CountOfRemove(o[1..], v - 1, p);
    } else {
      assert o[..v] + o[v + 1..] == o[1..];
    }
  }

  /** A player owns every node exactly when its tally is the node count. */
  lemma {:induction false} CountOfAll(o: seq<Player>, p: Player)
    ensures CountOf(o, p) <= |o|
    ensures CountOf(o, p) == |o| <==> forall v :: 0 <= v < |o| ==> o[v] == p
  {
    if o != [] {
      CountOfAll(o[1..], p);
      if CountOf(o, p) == |o| {
        forall v | 0 <= v < |o| ensures o[v] == p {
          if v > 0 { assert o[v] == o[1..][v - 1]; }
        }
      }
      if forall v :: 0 <= v < |o| ==> o[v] == p {
        assert forall v :: 0 <= v < |o| - 1 ==> o[1..][v] == o[v + 1];
      }
    }
  }

  /** A player that owns some node has a positive tally. */
  lemma {:induction false} CountOfPositive(o: seq<Player>, v: nat)
    requires v < |o|
    ensures CountOf(o, o[v]) >= 1
  {
    if v > 0 {
      assert o[1..][v - 1] == o[v];
      CountOfPositive(o[1..], v - 1);
    }
  }

  /** Every node is claimed exactly when the claimed count is the node count. */
  lemma {:induction false} OccupiedAll(o: seq<Player>)
    ensures Occupied(o) <= |o|
    ensures Occupied(o) == |o| <==> forall v :: 0 <= v < |o| ==> o[v] != Empty
  {
    if o != [] {
      OccupiedAll(o[1..]);
      if Occupied(o) == |o| {
        forall v | 0 <= v < |o| ensures o[v] != Empty {
          if v > 0 { assert o[v] == o[1..][v - 1]; }
        }
      }
      if forall v :: 0 <= v < |o| ==> o[v] != Empty {
        assert forall v :: 0 <= v < |o| - 1 ==> o[1..][v] == o[v + 1];
      }
    }
  }

  /** The tallies of `ps` summed directly from the owners. */
  function OwnedBy(ps: seq<Player>, o: seq<Player>): nat
  {
    if ps == [] then 0 else OwnedBy(ps[..|ps| - 1], o) + CountOf(o, ps[|ps| - 1])
  }

  lemma {:induction false} TallySumIsOwnedBy(ps: seq<Player>, tally: map<Player, int>, o: seq<Player>)
    requires forall i :: 0 <= i < |ps| ==> ps[i] in tally && tally[ps[i]] == CountOf(o, ps[i])
    ensures TallySum(ps, tally) == OwnedBy(ps, o)
  {
    if ps != [] {
      TallySumIsOwnedBy(ps[..|ps| - 1], tally, o);
    }
  }

  lemma {:induction false} OwnedByCons(ps: seq<Player>, x: Player, o: seq<Player>)
    requires Distinct(ps)
    ensures OwnedBy(ps, [x] + o) == OwnedBy(ps, o) + (if x in ps then 1 else 0)
  {
    if ps != [] {
      var init := ps[..|ps| - 1];
      assert Distinct(init);
      OwnedByCons(init, x, o);
      assert ([x] + o)[1..] == o;
      assert x in ps <==> x in init || x == ps[|ps| - 1];
      assert x in init ==> x != ps[|ps| - 1];
    }
  }

  /** When every owner is a player or Empty, the players' tallies add up to
      the number of claimed nodes. */
  lemma {:induction false} OwnedByIsOccupied(ps: seq<Player>, o: seq<Player>)
    requires Distinct(ps) && Empty !in ps
    requires forall v :: 0 <= v < |o| ==> o[v] == Empty || o[v] in ps
    ensures OwnedBy(ps, o) == Occupied(o)
  {
    if o == [] {
      OwnedByNone(ps);
    } else {
      assert o == [o[0]] + o[1..];
      OwnedByCons(ps, o[0], o[1..]);
      OwnedByIsOccupied(ps, o[1..]);
    }
  }

  lemma {:induction false} OwnedByNone(ps: seq<Player>)
    ensures OwnedBy(ps, []) == 0
  {
    if ps != [] { OwnedByNone(ps[..|ps| - 1]); }
  }

  /** Tally consistency: on every reachable board the tallies add up to the
      number of claimed nodes, and so never exceed the number of nodes. */
  lemma TallySumIsOccupied(s: GraphState)
    requires Inv(s)
    ensures TallySum(s.players, s.playerCounts) == Occupied(s.player) <= |s.count|
  {
    TallySumIsOwnedBy(s.players, s.playerCounts, s.player);
    OwnedByIsOccupied(s.players, s.player);
    OccupiedAll(s.player);
  }

  /** `isFull` holds exactly when no node is unclaimed. */
  lemma FullIffNoneUnclaimed(s: GraphState)
    requires Inv(s)
    ensures Full(s) <==> forall v :: 0 <= v < |s.count| ==> s.player[v] != Empty
  {
    TallySumIsOccupied(s);
    OccupiedAll(s.player);
  }

  /** `hasWinner` holds exactly when one player owns every node (on an empty
      board every player does). */
  lemma WinnerIffOwnsAll(s: GraphState)
    requires Inv(s)
    ensures Winner(s) <==>
      exists i :: 0 <= i < |s.players| && forall v :: 0 <= v < |s.count| ==> s.player[v] == s.players[i]
  {
    forall i | 0 <= i < |s.players|
      ensures s.playerCounts[s.players[i]] == |s.count| <==>
              forall v :: 0 <= v < |s.count| ==> s.player[v] == s.players[i]
    {
      CountOfAll(s.player, s.players[i]);
    }
  }

  /** On a full board with at least one node some player has a non-zero
      tally; this is what makes `nextTurn` terminate. */
  lemma FullBoardHasLivePlayer(s: GraphState)
    requires Inv(s) && Full(s) && |s.count| > 0
    ensures exists i :: 0 <= i < |s.players| && s.playerCounts[s.players[i]] > 0
  {
    FullIffNoneUnclaimed(s);
    var p := s.player[0];
    assert p in s.players;
    var i :| 0 <= i < |s.players| && s.players[i] == p;
    CountOfPositive(s.player, 0);
  }
}
