/** The `Graph` class of base.js (and its older copy in test.js, which has
    the same fields and the same `splode`, `hasWinner`, `stillProcessing`
    and `duplicate`) over an arena of nodes: node `i` is `nodes[i]`, and
    its `count`, `player` and `neighbors` are entry `i` of the fields of
    the same names. Every method is proved against the function of the
    same operation on board values. */
module Engine {
  import opened BoardState
  import Cascade
  import Snapshot
  import Turns
  import Removal
  import Building

  class Graph {
    var count: seq<int>
    var player: seq<Player>
    var neighbors: seq<seq<nat>>
    var players: seq<Player>
    var playerCounts: map<Player, int>
    var currIndex: int
    var currPlayer: Player
    var toProcess: seq<nat>
    var overflow: int
    var prev: Graph?            // the graph before the last move, for undo
    ghost var Repr: set<object> // this graph and every graph down its undo chain

    /** The board this graph holds. */
    ghost function State(): GraphState
      reads this
    {
      GraphState(count, player, neighbors, players, playerCounts, currIndex, currPlayer, toProcess, overflow)
    }

    /** The board invariant, and a valid undo chain behind it. */
    ghost predicate Valid()
      reads this, Repr
      ensures Valid() ==> this in Repr
      decreases Repr, 1
    {
      this in Repr && Inv(State()) && Linked()
    }

    /** Down the undo chain every earlier graph is a valid board of the
        same players with no cascade pending (`duplicate` only copies a
        settled board). It reads none of the board fields of this graph, so
        changing the board keeps it. */
    ghost predicate Linked()
      reads this`prev, this`Repr, this`players, Repr - {this}
      decreases Repr, 0
    {
      prev != null ==>
        && this in Repr && prev in Repr && prev != this
        && prev.Repr <= Repr && this !in prev.Repr
        && prev.Valid()
        && prev.toProcess == [] && prev.players == players
    }

    /** `new Graph(players)` (base.js:69-103). */
    constructor (ps: seq<Player>)
      requires ValidPlayers(ps)
      ensures Valid() && fresh(Repr) && prev == null
      ensures State() == Building.Initial(ps)
    {
      var tallies: map<Player, int> := map[];
      for i := 0 to |ps|
        invariant tallies == map p | p in ps[..i] :: 0
      {
        assert ps[..i + 1] == ps[..i] + [ps[i]];
        tallies := tallies[ps[i] := 0];
      }
      assert ps[..|ps|] == ps;
      count := [];
      player := [];
      neighbors := [];
      players := ps;
      currIndex := 0;
      currPlayer := ps[0];
      playerCounts := tallies;
      toProcess := [];
      overflow := 0;
      prev := null;
      Repr := {this};
    }

    /** `addNode(new Node(..))` (base.js:105-108). */
    method AddNode()
      requires Valid()
      modifies this
      ensures Valid() && prev == old(prev) && Repr == old(Repr)
      ensures State() == Building.AddNode(old(State()))
    {
      count := count + [0];
      player := player + [Empty];
      neighbors := neighbors + [[|neighbors|]];
      assert State() == Building.AddNode(old(State()));
    }

    /** `nodes[v].addNeighbor(nodes[w])` (base.js:24-27). */
    method AddNeighbor(v: nat, w: nat)
      requires Valid() && v < |count| && w < |count|
      modifies this`neighbors
      ensures Valid()
      ensures State() == Building.AddNeighbor(old(State()), v, w)
      ensures neighbors == old(neighbors)[v := old(neighbors)[v] + [w]]
    {
      neighbors := neighbors[v := neighbors[v] + [w]];
      assert State() == Building.AddNeighbor(old(State()), v, w);
    }

    /** `rmNode(nodes[v])` (base.js:111-118), for an unclaimed node that is
        not waiting on the worklist, in a graph symmetric at the node with
        no repeated neighbours. The nodes after `v` move down one place. */
    method RmNode(v: nat)
      requires Valid() && v < |count|
      requires Removal.SymmetricAt(State(), v) && Removal.Simple(State())
      requires player[v] == Empty && v !in toProcess
      modifies this
      ensures Valid() && prev == old(prev) && Repr == old(Repr)
      ensures State() == Removal.RmNode(old(State()), v)
    {
      ghost var s := State();
      var nb := Unhooked(v);
      Removal.RmNodeKeepsInv(s, v);
      Install(GraphState(Removal.Without(count, v), Removal.Without(player, v),
                         Removal.Without(Removal.ShiftLists(nb, v), v), players, playerCounts,
                         currIndex, currPlayer, Removal.ShiftAll(toProcess, v), overflow));
    }

    /** The neighbour lists once `rmNode` has dropped `v`'s self-link and
        taken `v` out of the list of every node `v` names (base.js:113-117),
        one `indexOf`/`splice` per entry. */
    method Unhooked(v: nat) returns (nb: seq<seq<nat>>)
      requires Inv(State()) && v < |count|
      ensures nb == Removal.Detached(State(), v)
    {
      var own := neighbors[v][1..];
      assert forall k :: 0 <= k < |own| ==> own[k] == neighbors[v][k + 1];
      nb := neighbors[v := own];
      for i := 0 to |own|
        invariant nb == Removal.Detach(neighbors[v := own], v, own[..i])
      {
        var w := own[i];
        assert own[..i + 1][..i] == own[..i];
        nb := nb[w := Removal.Unlink(nb[w], v)];
      }
      assert own[..|own|] == own;
    }

    /** `stillProcessing` (base.js:155-160): whether a cascade is pending;
        the step counter is reset when none is. */
    method StillProcessing() returns (busy: bool)
      requires Valid()
      modifies this
      ensures Valid() && prev == old(prev) && Repr == old(Repr)
      ensures busy == (toProcess != [])
      ensures State() == Cascade.Settle(old(State()))
    {
      if toProcess == [] {
        overflow := 0;
      }
      busy := toProcess != [];
    }

    /** `hasWinner` (base.js:198-205): some player's tally equals the
        number of nodes, which is the case exactly when that player owns
        every node. */
    method HasWinner() returns (won: bool)
      requires Inv(State())
      ensures won == Winner(State())
      ensures won <==> exists i :: 0 <= i < |players| && forall v :: 0 <= v < |count| ==> player[v] == players[i]
    {
      WinnerIffOwnsAll(State());
      for i := 0 to |players|
        invariant forall j :: 0 <= j < i ==> playerCounts[players[j]] != |count|
      {
        if playerCounts[players[i]] == |count| {
          return true;
        }
      }
      return false;
    }

    /** `isFull` (base.js:208-215): the tallies add up to the number of
        nodes, which is the case exactly when no node is unclaimed. */
    method IsFull() returns (full: bool)
      requires Inv(State())
      ensures full == Full(State())
      ensures full <==> forall v :: 0 <= v < |count| ==> player[v] != Empty
    {
      FullIffNoneUnclaimed(State());
      var occupied := 0;
      for i := 0 to |players|
        invariant occupied == TallySum(players[..i], playerCounts)
      {
        assert players[..i + 1][..i] == players[..i];
        assert players[i] in players;
        occupied := occupied + playerCounts[players[i]];
      }
      assert players[..|players|] == players;
      return occupied == |count|;
    }

    /** One token onto node `m`, which passes to the current player with
        the tallies kept right (base.js:182-189, test.js:678-685). Needs only
        that every owner has a tally, so that the loop of `Fire` can use it
        without carrying the whole invariant. */
    method Capture(m: nat)
      requires Tracked(State()) && m < |count|
      modifies this
      ensures prev == old(prev) && Repr == old(Repr)
      ensures State() == Cascade.Capture(old(State()), m)
    {
      count := count[m := count[m] + 1];
      if player[m] != currPlayer {
        if player[m] != Empty {
          playerCounts := playerCounts[player[m] := playerCounts[player[m]] - 1];
        }
        playerCounts := playerCounts[currPlayer := playerCounts[currPlayer] + 1];
        player := player[m := currPlayer];
      }
    }

    /** One round of the loop of base.js:181-191: node `m` is captured and
        pushed on the worklist. */
    method Hand(m: nat)
      requires Tracked(State()) && m < |count|
      modifies this
      ensures prev == old(prev) && Repr == old(Repr)
      ensures var t := Cascade.Capture(old(State()), m);
        State() == t.(toProcess := t.toProcess + [m])
    {
      Capture(m);
      toProcess := toProcess + [m];
    }

    /** The placement of a move on a copy of the board (test.js:678-687):
        one token onto `t`, which passes to the current player, and a
        worklist of just `t`. */
    method Place(t: nat)
      requires Valid() && t < |count|
      modifies this
      ensures Valid() && prev == old(prev) && Repr == old(Repr)
      ensures State() == Cascade.Place(old(State()), t)
    {
      ghost var s := State();
      Capture(t);
      toProcess := [t];
      Cascade.PlaceKeepsInv(s, t);
    }

    /** `splode` (base.js:165-194): pops the last node of the worklist,
        empties the worklist when there is a winner, and fires the popped
        node if it holds enough tokens. Returns whether it fired. */
    method Splode() returns (didSplode: bool)
      requires Valid() && toProcess != []
      modifies this
      ensures Valid() && prev == old(prev) && Repr == old(Repr)
      ensures State() == Cascade.Splode(old(State()))
      ensures didSplode == Cascade.Fires(old(State()), Cascade.Last(old(toProcess)))
    {
      var current := Pop();
      didSplode := false;
      if |neighbors[current]| <= count[current] {
        didSplode := true;
        Fire(current);
      }
    }

    /** The first half of `splode` (base.js:167-173): the last node of the
        worklist is taken off and returned, the step counted, and the
        worklist emptied when some player owns every node. */
    method Pop() returns (current: nat)
      requires Valid() && toProcess != []
      modifies this
      ensures Valid() && prev == old(prev) && Repr == old(Repr)
      ensures State() == Cascade.Pop(old(State()))
      ensures current == Cascade.Last(old(toProcess))
    {
      ghost var s := State();
      // `hasWinner` reads only the tallies, which the pop leaves alone, so
      // asking it first gives the answer it gives after the pop.
      var won := HasWinner();
      current := toProcess[|toProcess| - 1];
      toProcess := if won then [] else toProcess[..|toProcess| - 1];
      overflow := overflow + 1;
      Cascade.PopKeepsInv(s);
    }

    /** The firing half of `splode` (base.js:176-191): node `v` gives up one
        token per entry of its neighbour list, which is then handed out. */
    method Fire(v: nat)
      requires Valid() && v < |count| && Cascade.Fires(State(), v)
      modifies this
      ensures Valid() && prev == old(prev) && Repr == old(Repr)
      ensures State() == Cascade.Fire(old(State()), v)
    {
      ghost var s := State();
      var list := neighbors[v];
      count := count[v := count[v] - |list|];
      assert State() == Cascade.Drain(s, v);
      Spread(list);
      Cascade.FireKeepsInv(s, v);
    }

    /** The loop of base.js:181-191: each entry of `list` in turn gains a
        token, passes to the current player and is pushed on the worklist. */
    method Spread(list: seq<nat>)
      requires Tracked(State())
      requires forall k :: 0 <= k < |list| ==> list[k] < |count|
      modifies this
      ensures prev == old(prev) && Repr == old(Repr)
      ensures State() == Cascade.Distribute(old(State()), list)
    {
      ghost var s := State();
      for i := 0 to |list|
        invariant prev == old(prev) && Repr == old(Repr)
        invariant State() == Cascade.Distribute(s, list[..i])
      {
        Cascade.DistributeSnoc(s, list, i);
        Hand(list[i]);
      }
      assert list[..|list|] == list;
    }

    /** `duplicate` (base.js:218-267): nothing while a cascade is pending;
        otherwise a new graph holding a copy of this board, linked back to
        this graph by `prev`. This graph is not changed. */
    method Duplicate() returns (d: Graph?)
      requires Valid()
      ensures toProcess != [] ==> d == null
      ensures toProcess == [] ==> d != null && fresh(d) && d.Valid() && d.prev == this
      ensures toProcess == [] ==> d.Repr == {d} + Repr && d.State() == Snapshot.Duplicated(State())
    {
      if toProcess != [] {
        return null;
      }
      var newCount, newPlayer, adj := CopyNodes();
      adj := CopyEdges(adj);
      var tallies := CopyTallies();
      var b := GraphState(newCount, newPlayer, adj, players, tallies, currIndex, currPlayer, [], 0);
      assert b == Snapshot.Duplicated(State());
      Snapshot.DuplicatedKeepsInv(State());
      d := new Graph(players);
      d.Restore(b, this);
    }

    /** The field assignments that end `duplicate` (base.js:244-262): this
        fresh graph takes over the board `b`, and `prev` links it back to
        the graph it was copied from. */
    method Restore(b: GraphState, back: Graph)
      requires Inv(b) && b.toProcess == [] && b.overflow == 0
      requires back.Valid() && back.toProcess == [] && back.players == b.players
      requires this !in back.Repr
      modifies this
      ensures Valid() && State() == b && prev == back && Repr == {this} + back.Repr
    {
      SetBoard(b);
      prev := back;
      Repr := {this} + back.Repr;
      ValidUnchanged(back);
    }

    /** The board of this graph becomes `b`, another valid board of the
        same players. */
    method Install(b: GraphState)
      requires Valid() && Inv(b) && b.players == players
      modifies this
      ensures Valid() && State() == b && prev == old(prev) && Repr == old(Repr)
    {
      SetBoard(b);
    }

    /** Every board field of this graph takes its value from `b`. */
    method SetBoard(b: GraphState)
      modifies this
      ensures State() == b && prev == old(prev) && Repr == old(Repr)
    {
      count, player, neighbors := b.count, b.player, b.neighbors;
      players, playerCounts := b.players, b.playerCounts;
      currIndex, currPlayer := b.currIndex, b.currPlayer;
      toProcess, overflow := b.toProcess, b.overflow;
    }

    /** A graph none of whose objects changed is still valid. */
    static twostate lemma ValidUnchanged(g: Graph)
      requires old(g.Valid()) && unchanged(g) && unchanged(old(g.Repr))
      ensures g.Valid()
    {
    }

    /** The node copy of `duplicate` (base.js:227-233): every node again,
        with its tokens and owner, and a neighbour list of just itself, as
        `addNode` gives it. */
    method CopyNodes() returns (newCount: seq<int>, newPlayer: seq<Player>, adj: seq<seq<nat>>)
      requires |player| == |count|
      ensures newCount == count && newPlayer == player
      ensures |adj| == |count| && forall u :: 0 <= u < |count| ==> adj[u] == [u]
    {
      newCount, newPlayer, adj := [], [], [];
      for k := 0 to |count|
        invariant newCount == count[..k] && newPlayer == player[..k]
        invariant |adj| == k && forall u :: 0 <= u < k ==> adj[u] == [u]
      {
        newCount := newCount + [count[k]];
        newPlayer := newPlayer + [player[k]];
        adj := adj + [[k]];
      }
    }

    /** The edge copy of `duplicate` (base.js:235-242): for each pair of
        distinct nodes, in index order, the second is appended to the
        first's list when the original lists it. The copied lists are the
        ones `Snapshot.CopyNeighbors` describes. */
    method CopyEdges(bare: seq<seq<nat>>) returns (adj: seq<seq<nat>>)
      requires |neighbors| == |bare|
      requires forall u :: 0 <= u < |bare| ==> bare[u] == [u]
      ensures adj == Snapshot.CopyNeighbors(neighbors)
    {
      var n := |bare|;
      adj := bare;
      for i := 0 to n
        invariant |adj| == n
        invariant forall u :: 0 <= u < i ==> adj[u] == Snapshot.CopyList(neighbors[u], u, n)
        invariant forall u :: i <= u < n ==> adj[u] == [u]
      {
        var row := CopyRow(adj[i], i, n);
        adj := adj[i := row];
      }
    }

    /** One round of the outer edge loop of `duplicate` (base.js:237-241):
        starting from the copy's list `[i]`, every other node that node
        `i` names is appended, in index order. */
    method CopyRow(first: seq<nat>, i: nat, n: nat) returns (row: seq<nat>)
      requires i < |neighbors| && first == [i]
      ensures row == Snapshot.CopyList(neighbors[i], i, n)
    {
      row := first;
      for j := 0 to n
        invariant row == [i] + Snapshot.Others(neighbors[i], i, j)
      {
        if i != j && j in neighbors[i] {
          row := row + [j];
        }
      }
    }

    /** The tally copy of `duplicate` (base.js:244-252): one entry per
        player, with the same value. */
    method CopyTallies() returns (tallies: map<Player, int>)
      requires forall p :: p in playerCounts <==> p in players
      ensures tallies == playerCounts
    {
      tallies := map[];
      for i := 0 to |players|
        invariant forall p :: p in tallies <==> p in players[..i]
        invariant forall p :: p in tallies ==> p in playerCounts && tallies[p] == playerCounts[p]
      {
        var p := players[i];
        assert players[..i + 1] == players[..i] + [p];
        assert p in players;
        assert p in playerCounts;
        tallies := tallies[p := playerCounts[p]];
      }
      assert players[..|players|] == players;
      assert forall p :: p in tallies <==> p in playerCounts;
      assert tallies.Keys == playerCounts.Keys;
      assert forall p :: p in tallies ==> tallies[p] == playerCounts[p];
    }

    /** `nextTurn` (base.js:270-277): passes the turn on, seat by seat,
        for as long as the seat reached belongs to a player who holds
        nothing on a full board. Needs at least one node: on an empty board
        every seat is skipped and the loop never ends. */
    method NextTurn()
      requires Valid() && |count| > 0
      modifies this
      ensures Valid() && prev == old(prev) && Repr == old(Repr)
      ensures State() == Turns.NextTurn(old(State()))
      ensures playerCounts[currPlayer] != 0 || !Full(State())
    {
      ghost var s := State();
      var n := |players|;
      ghost var t := Turns.NextTurnIndex(s);
      ghost var k := 0;
      var i := currIndex;
      var stop := false;
      while !stop
        invariant unchanged(this)
        invariant 0 <= i < n
        invariant stop ==> i == t && !Turns.Skipped(s, i)
        invariant !stop ==> k < Turns.Dist(s.currIndex, t, n) && i == Turns.Rot(s.currIndex, k, n)
        decreases if stop then 0 else Turns.Dist(s.currIndex, t, n) - k + 1
      {
        Turns.NextTurnStep(s, k + 1);
        i := (i + 1) % n;
        k := k + 1;
        var full := IsFull();
        stop := !(playerCounts[players[i]] == 0 && full);
      }
      SetTurn(i);
    }

    /** Hands the turn to seat `i` (base.js:273-274). */
    method SetTurn(i: nat)
      requires Valid() && i < |players|
      modifies this
      ensures Valid() && prev == old(prev) && Repr == old(Repr)
      ensures State() == old(State()).(currIndex := i, currPlayer := old(players)[i])
    {
      currIndex := i;
      currPlayer := players[i];
    }
  }
}
