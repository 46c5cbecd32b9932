/** The move driver of test.js: `clickHandler` (test.js:663-690), which
    undoes a move or plays one on a copy of the board, and `loop`
    (test.js:702-720), which advances a pending cascade by one step and
    passes the turn when the cascade is over. The pointer geometry becomes
    `hit` (which nodes the click lies in) and `inMargin` (the click is in
    the strip below the board); the frame timer becomes `due`. */
module Driver {
  import opened BoardState
  import Cascade
  import Snapshot
  import Engine
  import Turns

  datatype Option<T> = None | Some(value: T)

  /** The cap on cascade steps `loop` checks before each step
      (test.js:709). */
  const OverflowLimit := 30000

  // ---------------------------------------------------------------------
  // clickHandler

  /** Node `t` takes the click: the click lies in it and the current player
      may play there (test.js:674). */
  predicate Accepts(s: GraphState, hit: seq<bool>, t: nat)
    requires t < |s.player|
  {
    t < |hit| && hit[t] && Cascade.Playable(s, t)
  }

  /** The first node from `i` on that takes the click. */
  function FirstFrom(s: GraphState, hit: seq<bool>, i: nat): (r: Option<nat>)
    requires |s.player| == |s.count| && i <= |s.count|
    ensures r.Some? ==> i <= r.value < |s.count| && Accepts(s, hit, r.value)
    decreases |s.count| - i
  {
    if i == |s.count| then None
    else if Accepts(s, hit, i) then Some(i)
    else FirstFrom(s, hit, i + 1)
  }

  /** The node a click plays on: none while a cascade is pending, else the
      first node in node order that takes it. Once a move is made the new
      board has a pending cascade, so the rest of the loop of
      `clickHandler` plays nothing. */
  function FirstMove(s: GraphState, hit: seq<bool>): (r: Option<nat>)
    requires |s.player| == |s.count|
    ensures r.Some? ==> r.value < |s.count|
  {
    if s.toProcess != [] then None else FirstFrom(s, hit, 0)
  }

  lemma {:induction false} FirstFromIs(s: GraphState, hit: seq<bool>, i: nat)
    requires |s.player| == |s.count| && i <= |s.count|
    ensures FirstFrom(s, hit, i).Some? ==>
      var m := FirstFrom(s, hit, i).value;
      i <= m < |s.count| && Accepts(s, hit, m) &&
      forall u :: i <= u < m ==> !Accepts(s, hit, u)
    ensures FirstFrom(s, hit, i).None? ==>
      forall u :: i <= u < |s.count| ==> !Accepts(s, hit, u)
    decreases |s.count| - i
  {
    if i < |s.count| && !Accepts(s, hit, i) {
      FirstFromIs(s, hit, i + 1);
    }
  }

  /** A click plays on `m` exactly when no cascade is pending, `m` takes
      the click and no earlier node does. */
  lemma FirstMoveIs(s: GraphState, hit: seq<bool>, m: nat)
    requires |s.player| == |s.count|
    ensures FirstMove(s, hit) == Some(m) <==>
      && s.toProcess == []
      && m < |s.count| && Accepts(s, hit, m)
      && forall u :: 0 <= u < m ==> !Accepts(s, hit, u)
  {
    FirstFromIs(s, hit, 0);
  }

  /** A click plays nothing exactly when a cascade is pending or no node
      takes it. */
  lemma FirstMoveNone(s: GraphState, hit: seq<bool>)
    requires |s.player| == |s.count|
    ensures FirstMove(s, hit) == None <==>
      s.toProcess != [] || forall u :: 0 <= u < |s.count| ==> !Accepts(s, hit, u)
  {
    FirstFromIs(s, hit, 0);
  }

  /** The board the node loop of `clickHandler` (test.js:671-689) leaves:
      each round asks `stillProcessing`, which settles the board; the first
      node that takes the click gets a move, played on a `duplicate` of the
      board so that the old board stays behind as the undo point. */
  function Clicked(s: GraphState, hit: seq<bool>): (r: GraphState)
    requires Inv(s)
    ensures r.players == s.players && r.currIndex == s.currIndex && r.currPlayer == s.currPlayer
    ensures |r.count| == |s.count| && Sum(s.count) <= Sum(r.count) <= Sum(s.count) + 1
  {
    var t := Cascade.Settle(s);
    Cascade.SettleKeepsInv(s);
    Snapshot.DuplicatedKeepsInv(t);
    if |s.count| == 0 then s
    else
      match FirstMove(t, hit)
      case None => t
      case Some(m) => Cascade.Place(Snapshot.Duplicated(t), m)
  }

  /** A click always leaves a valid board. */
  lemma ClickedKeepsInv(s: GraphState, hit: seq<bool>)
    requires Inv(s)
    ensures Inv(Clicked(s, hit))
  {
    var t := Cascade.Settle(s);
    Cascade.SettleKeepsInv(s);
    Snapshot.DuplicatedKeepsInv(t);
    var f := FirstMove(t, hit);
    if |s.count| > 0 && f.Some? {
      FirstMoveIs(t, hit, f.value);
      Cascade.PlaceKeepsInv(Snapshot.Duplicated(t), f.value);
    }
  }

  /** A click that plays on `m` adds exactly one token, on `m`, which then
      belongs to the player whose turn it is; every other node keeps its
      tokens and owner, the turn does not change and the cascade to come
      starts from `m` alone. */
  lemma ClickPlays(s: GraphState, hit: seq<bool>, m: nat)
    requires Inv(s) && |s.count| > 0
    requires FirstMove(Cascade.Settle(s), hit) == Some(m)
    ensures var r := Clicked(s, hit);
      && m < |s.count|
      && Sum(r.count) == Sum(s.count) + 1
      && r.count[m] == s.count[m] + 1 && r.player[m] == s.currPlayer
      && (forall v :: 0 <= v < |s.count| && v != m ==> r.count[v] == s.count[v] && r.player[v] == s.player[v])
      && r.toProcess == [m]
      && r.currIndex == s.currIndex && r.currPlayer == s.currPlayer
  {
    FirstMoveIs(Cascade.Settle(s), hit, m);
  }

  /** A click that plays nothing changes no token, owner or worklist. */
  lemma ClickIgnored(s: GraphState, hit: seq<bool>)
    requires Inv(s)
    requires |s.count| == 0 || FirstMove(Cascade.Settle(s), hit) == None
    ensures var r := Clicked(s, hit);
      r.count == s.count && r.player == s.player && r.toProcess == s.toProcess &&
      r.playerCounts == s.playerCounts && r.currIndex == s.currIndex
  {
  }

  /** While a cascade is pending, clicks do nothing at all. */
  lemma ClickWhileBusy(s: GraphState, hit: seq<bool>)
    requires Inv(s) && s.toProcess != []
    ensures Clicked(s, hit) == s
  {
  }

  // ---------------------------------------------------------------------
  // loop

  /** The seat after the current one, taken without skipping anyone: the
      turn change of `loop` (test.js:712-714), unlike `nextTurn`. */
  function PassTurn(s: GraphState): (r: GraphState)
    requires Inv(s)
    ensures Inv(r)
    ensures r == s.(currIndex := r.currIndex, currPlayer := r.currPlayer)
    ensures r.currIndex == if s.currIndex + 1 < |s.players| then s.currIndex + 1 else 0
  {
    var k := Turns.Succ(s.currIndex, |s.players|);
    s.(currIndex := k, currPlayer := s.players[k])
  }

  /** Whether a frame of `loop` takes a cascade step: a cascade is pending,
      the timer is due and the step counter is below the cap
      (test.js:709). */
  predicate Steps(s: GraphState, due: bool)
  {
    s.toProcess != [] && due && s.overflow < OverflowLimit
  }

  /** One frame of `loop` (test.js:709-715): after `stillProcessing`
      settles the board, a due step runs `splode` on the last node of the
      worklist; when that leaves the worklist empty, the turn passes. */
  function Tick(s: GraphState, due: bool): (r: GraphState)
    requires Inv(s)
    ensures r.players == s.players && r.neighbors == s.neighbors
    ensures r.overflow <= s.overflow || r.overflow == s.overflow + 1 <= OverflowLimit
  {
    var a := Cascade.Settle(s);
    Cascade.SettleKeepsInv(s);
    if Steps(a, due) then Step(a) else a
  }

  /** The step a frame takes on a pending cascade: `splode`, then
      `stillProcessing`, and the turn passes when no cascade is left. */
  function Step(a: GraphState): GraphState
    requires Inv(a) && a.toProcess != []
  {
    var b := Cascade.Splode(a);
    Cascade.SplodeKeepsInv(a);
    var c := Cascade.Settle(b);
    Cascade.SettleKeepsInv(b);
    if c.toProcess == [] then PassTurn(c) else c
  }

  /** A frame keeps the board valid, keeps the players and the links, and
      neither creates nor destroys a token. */
  lemma TickKeepsInv(s: GraphState, due: bool)
    requires Inv(s)
    ensures var r := Tick(s, due);
      Inv(r) && Sum(r.count) == Sum(s.count) &&
      r.neighbors == s.neighbors && r.players == s.players
  {
    Cascade.SettleKeepsInv(s);
    var a := Cascade.Settle(s);
    if Steps(a, due) {
      Cascade.SplodeKeepsInv(a);
      Cascade.SettleKeepsInv(Cascade.Splode(a));
    }
  }

  /** The turn changes in a frame exactly when it takes a step that leaves
      no cascade pending, and then it goes to the next seat. */
  lemma TickPassesTurn(s: GraphState, due: bool)
    requires Inv(s)
    ensures var r := Tick(s, due);
      (Steps(s, due) && r.toProcess == []) ==> r.currIndex == (s.currIndex + 1) % |s.players|
    ensures var r := Tick(s, due);
      !(Steps(s, due) && r.toProcess == []) ==> r.currIndex == s.currIndex && r.currPlayer == s.currPlayer
  {
    Cascade.SettleKeepsInv(s);
  }

  /** A frame that takes no step only settles the board; once the step
      counter has reached the cap, a runaway cascade stays frozen. */
  lemma TickIdle(s: GraphState, due: bool)
    requires Inv(s) && !Steps(s, due)
    ensures Tick(s, due) == Cascade.Settle(s)
    ensures s.toProcess != [] ==> Tick(s, due) == s
  {
  }

  /** A frame that takes a step counts it, up to the cap. */
  lemma TickCounts(s: GraphState, due: bool)
    requires Inv(s) && Steps(s, due)
    ensures var r := Tick(s, due);
      r.toProcess != [] ==> r.overflow == s.overflow + 1 && r.overflow <= OverflowLimit
  {
    Cascade.SettleKeepsInv(s);
  }

  /** The frames of `loop`, one per entry of `dues`. */
  function Run(s: GraphState, dues: seq<bool>): GraphState
    requires Inv(s)
    decreases |dues|
  {
    if dues == [] then s
    else
      TickKeepsInv(s, dues[0]);
      Run(Tick(s, dues[0]), dues[1..])
  }

  /** Any number of frames keeps the board valid, the links fixed and the
      number of tokens the same: cascades only move tokens around. */
  lemma {:induction false} RunConserves(s: GraphState, dues: seq<bool>)
    requires Inv(s)
    ensures var r := Run(s, dues);
      Inv(r) && Sum(r.count) == Sum(s.count) && r.neighbors == s.neighbors
    decreases |dues|
  {
    if dues != [] {
      TickKeepsInv(s, dues[0]);
      RunConserves(Tick(s, dues[0]), dues[1..]);
    }
  }

  // ---------------------------------------------------------------------
  // The handlers on the live graph

  /** `clickHandler` (test.js:663-690) on the graph `g` the game shows: a
      click in the margin first goes back to the graph before the last
      move, if there is one; then the first node that takes the click gets
      a move on a fresh `duplicate`, which becomes the graph shown and
      keeps the graph it was copied from as its undo point. */
  method ClickHandler(g: Engine.Graph, inMargin: bool, hit: seq<bool>) returns (h: Engine.Graph)
    requires g.Valid()
    modifies if inMargin && g.prev != null then {g.prev} else {g}
    ensures h.Valid()
    ensures var g0 := if inMargin && old(g.prev) != null then old(g.prev) else g;
      old(g0.Valid()) && h.State() == Clicked(old(g0.State()), hit)
    ensures var g0 := if inMargin && old(g.prev) != null then old(g.prev) else g;
      var t := Cascade.Settle(old(g0.State()));
      if |t.count| > 0 && FirstMove(t, hit).Some? then fresh(h) && h.prev == g0 && h.Repr == {h} + g0.Repr else h == g0
    ensures var g0 := if inMargin && old(g.prev) != null then old(g.prev) else g;
      g0.Valid() && g0.prev == old(g0.prev) && g0.Repr == old(g0.Repr) &&
      g0.State() == if |old(g0.count)| == 0 then old(g0.State()) else Cascade.Settle(old(g0.State()))
  {
    var cur: Engine.Graph := g;
    if inMargin && g.prev != null {
      cur := g.prev;
    }
    assert cur.Valid();
    h := PlayClick(cur, hit);
  }

  /** A click that plays a move, then a click in the margin that hits no
      node: the second click goes back to the graph the move was made on,
      which holds its board as it stood before the move (only the step
      count is reset by `stillProcessing`), and the copy is left behind. */
  method MoveThenUndo(g: Engine.Graph, hit: seq<bool>) returns (h: Engine.Graph, back: Engine.Graph)
    requires g.Valid()
    modifies g
    ensures back.Valid() && h.State() == Clicked(old(g.State()), hit)
    ensures h != g ==>
      fresh(h) && h.prev == g && back == g && g.prev == old(g.prev) && g.Repr == old(g.Repr) &&
      g.State() == Cascade.Settle(old(g.State()))
    ensures h == g ==> back == g
  {
    ghost var s0 := g.State();
    h := ClickHandler(g, false, hit);
    back := h;
    if h != g {
      assert g.State() == Cascade.Settle(s0);
      ghost var t := g.State();
      assert h.prev == g && h.prev != null;
      back := ClickHandler(h, true, []);
      assert back == g;
      FirstMoveNone(Cascade.Settle(t), []);
    }
  }

  /** The node loop of `clickHandler` (test.js:671-689) on the graph
      `cur`: it returns `cur`, settled, or the copy of it that holds the
      move. */
  method PlayClick(cur: Engine.Graph, hit: seq<bool>) returns (h: Engine.Graph)
    requires cur.Valid()
    modifies cur
    ensures h.Valid() && h.State() == Clicked(old(cur.State()), hit)
    ensures var t := Cascade.Settle(old(cur.State()));
      if |t.count| > 0 && FirstMove(t, hit).Some? then fresh(h) && h.prev == cur && h.Repr == {h} + cur.Repr else h == cur
    ensures cur.Valid() && cur.prev == old(cur.prev) && cur.Repr == old(cur.Repr)
    ensures cur.State() == if |old(cur.count)| == 0 then old(cur.State()) else Cascade.Settle(old(cur.State()))
  {
    ghost var s0 := cur.State();
    ghost var t := Cascade.Settle(s0);
    Cascade.SettleKeepsInv(s0);
    ghost var mv := FirstMove(t, hit);
    FirstMoveNone(t, hit);
    if mv.Some? {
      FirstMoveIs(t, hit, mv.value);
    }
    h := cur;
    var n := |cur.count|;
    for i := 0 to n
      invariant h.Valid() && |h.count| == n
      invariant cur.Valid() && cur.prev == old(cur.prev) && cur.Repr == old(cur.Repr)
      invariant cur.State() == if i == 0 then s0 else t
      invariant (mv.None? || mv.value >= i) ==> h == cur && h.State() == if i == 0 then s0 else t
      invariant mv.Some? && mv.value < i ==>
        fresh(h) && h.prev == cur && h.Repr == {h} + cur.Repr && h.State() == Cascade.Place(Snapshot.Duplicated(t), mv.value)
    {
      h := ClickRound(h, i, hit);
      if mv.Some? && mv.value == i {
        FirstMoveIs(t, hit, i);
      }
    }
  }

  /** One frame of `loop` (test.js:702-720) on the graph the game shows;
      `didSplode` reports whether the node popped had enough tokens to
      fire, which the source uses only to pace the animation. */
  method Loop(g: Engine.Graph, due: bool) returns (didSplode: bool)
    requires g.Valid()
    modifies g
    ensures g.Valid() && g.prev == old(g.prev) && g.Repr == old(g.Repr)
    ensures g.State() == Tick(old(g.State()), due)
    ensures didSplode <==>
      Steps(old(g.State()), due) && Cascade.Fires(old(g.State()), Cascade.Last(old(g.toProcess)))
  {
    didSplode := false;
    var busy := g.StillProcessing();
    if busy && due && g.overflow < OverflowLimit {
      didSplode := LoopStep(g);
    }
  }

  /** One round of the node loop of `clickHandler` (test.js:671-689), on
      node `i`: `stillProcessing` settles the board; if the click lies in
      node `i` and the current player may play there, the board is
      duplicated and the move is placed on the copy, which is returned. */
  method ClickRound(cur: Engine.Graph, i: nat, hit: seq<bool>) returns (next: Engine.Graph)
    requires cur.Valid() && i < |cur.count|
    modifies cur
    ensures cur.Valid() && cur.prev == old(cur.prev) && cur.Repr == old(cur.Repr)
    ensures next.Valid() && |next.count| == |old(cur.count)|
    ensures var t := Cascade.Settle(old(cur.State()));
      cur.State() == t &&
      if t.toProcess == [] && Accepts(t, hit, i)
      then fresh(next) && next.prev == cur && next.Repr == {next} + cur.Repr && next.State() == Cascade.Place(Snapshot.Duplicated(t), i)
      else next == cur
  {
    next := cur;
    var busy := cur.StillProcessing();
    if !busy && i < |hit| && hit[i] && (cur.player[i] == cur.currPlayer || cur.player[i] == Empty) {
      var d := cur.Duplicate();
      d.Place(i);
      next := d;
    }
  }

  /** The step of `loop` on a pending cascade (test.js:710-715). */
  method LoopStep(g: Engine.Graph) returns (didSplode: bool)
    requires g.Valid() && g.toProcess != []
    modifies g
    ensures g.Valid() && g.prev == old(g.prev) && g.Repr == old(g.Repr)
    ensures g.State() == Step(old(g.State()))
    ensures didSplode == Cascade.Fires(old(g.State()), Cascade.Last(old(g.toProcess)))
  {
    didSplode := g.Splode();
    var busy := g.StillProcessing();
    if !busy {
      g.SetTurn((g.currIndex + 1) % |g.players|);
    }
  }
}
