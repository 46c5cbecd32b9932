/** Building a board: a new `Graph` (base.js:69-103), `addNode`
    (base.js:105-108) with a fresh `Node` (base.js:13-22), and
    `Node.addNeighbor` (base.js:24-27). */
module Building {
  import opened BoardState

  /** A new `Graph` for the given players: no nodes, every tally zero, the
      first player to move, an empty worklist and no steps taken. */
  function Initial(ps: seq<Player>): (r: GraphState)
    requires ValidPlayers(ps)
    ensures Inv(r)
    ensures r.count == [] && r.players == ps
    ensures forall i :: 0 <= i < |ps| ==> r.playerCounts[ps[i]] == 0
    ensures r.currIndex == 0 && r.currPlayer == ps[0]
    ensures r.toProcess == [] && r.overflow == 0
  {
    GraphState([], [], [], ps, map p | p in ps :: 0, 0, ps[0], [], 0)
  }

  /** `addNode(new Node(..))`: one more node, with no tokens, no owner and
      a neighbour list holding only itself. Every other node and every
      tally is as before, and the board is no longer full and has no
      winner, since the new node is unclaimed. */
  function AddNode(s: GraphState): (r: GraphState)
    requires Inv(s)
    ensures Inv(r)
    ensures |r.count| == |s.count| + 1
    ensures var n := |s.count|; r.count[n] == 0 && r.player[n] == Empty && r.neighbors[n] == [n]
    ensures r.count[..|s.count|] == s.count && r.player[..|s.count|] == s.player
    ensures r.neighbors[..|s.count|] == s.neighbors
    ensures r.playerCounts == s.playerCounts && r.toProcess == s.toProcess
    ensures r.players == s.players && r.currIndex == s.currIndex && r.overflow == s.overflow
    ensures Sum(r.count) == Sum(s.count)
    ensures !Full(r) && !Winner(r)
  {
    var n := |s.count|;
    var r := s.(count := s.count + [0], player := s.player + [Empty], neighbors := s.neighbors + [[n]]);
    SumAppend(s.count, 0);
    forall p | p in s.players ensures r.playerCounts[p] == CountOf(r.player, p) {
      CountOfAppend(s.player, Empty, p);
    }
    assert Inv(r);
    FullIffNoneUnclaimed(r);
    WinnerIffOwnsAll(r);
    assert r.player[n] == Empty;
    r
  }

  /** `nodes[v].addNeighbor(nodes[w])`: `w` is appended to `v`'s list, with
      no check for a repeat, and nothing else changes. */
  function AddNeighbor(s: GraphState, v: nat, w: nat): (r: GraphState)
    requires Inv(s) && v < |s.count| && w < |s.count|
    ensures Inv(r)
    ensures |r.neighbors| == |s.neighbors|
    ensures r.neighbors[v] == s.neighbors[v] + [w]
    ensures forall u :: 0 <= u < |s.count| && u != v ==> r.neighbors[u] == s.neighbors[u]
    ensures r.(neighbors := s.neighbors) == s
  {
    s.(neighbors := s.neighbors[v := s.neighbors[v] + [w]])
  }
}
