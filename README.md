# splode: a verified model of the board engine

splode is a turn-based capture game played on a graph. A player drops a
token on a node they own or on an unclaimed one. A node whose token count
reaches the length of its neighbour list "splodes": it gives one token to
every entry of that list and the current player captures each of them.
Each captured node joins a worklist, so one move can set off a chain
reaction. A player wins by owning every node.

This project models the engine of the game: the `Graph` class of base.js
(and its older copy in test.js), the move and undo handler `clickHandler`
and the frame step `loop` of test.js, and the integer board builders
`RectGraph`, `SquareGraph`, `PathGraph` and `CompleteGraph`.

The model has two layers.

- A board is a value, `BoardState.GraphState`. It holds the fields of a
  `Graph`: per-node `count`, `player` and `neighbors`, the `players`, the
  tallies `playerCounts`, the turn `currIndex`/`currPlayer`, the worklist
  `toProcess` and the step counter `overflow`. A node is its position in
  `nodes`, and a player is an integer identity (`Empty` is -1).
  `BoardState.Inv` is the invariant every reachable board keeps. It says:
  - every neighbour list starts with the node itself;
  - every list entry and every worklist entry names a node;
  - the players are distinct and none is `empty`;
  - each tally equals the number of nodes its player owns;
  - the turn index is in range, and `currPlayer` is the player at that index.
- Every operation is a function on board values, specified by what it does
  to tokens, owners, tallies and the worklist (modules `Building`,
  `Cascade`, `Turns`, `Snapshot`, `Removal`). A `...KeepsInv` lemma beside
  each operation shows it keeps the invariant.
- `Engine.Graph` is the mutable class. Its methods change its fields in
  place, and each is proved to leave `State()` equal to the function of
  the same name applied to the old board. `prev` is the undo link.
  `Repr` is the ghost footprint of the undo chain.
- `Boards` builds boards the way the source's constructors do: with
  `addNode` and `addNeighbor` calls inside the same loops. It proves that
  the result has exactly the neighbour lists of a closed-form description.
- `Driver` models `clickHandler` and `loop`, first as functions
  (`Clicked`, `Tick`) and then as methods on `Engine.Graph`.

Where the code does something a reader might not expect, the model follows
the code:

- **Firing threshold.** A node fires when `neighbors.length <= count`.
  The `Node` constructor puts the node itself at the head of that list, so
  the threshold is the degree plus one, and a firing node hands one token
  back to itself (`Cascade.FiringCount`). On a 2×2 grid a corner therefore
  needs three tokens to fire, not two.
- **A winner does not stop the popped node.** `splode` checks
  `hasWinner()` after popping and clears the worklist, but it still fires
  the popped node. That node may push its neighbours back onto the
  worklist. A winner stays a winner through that step
  (`Cascade.SplodeKeepsWinner`).
- **The step cap does not abort.** `loop` takes no further step once
  `overflow` reaches 30000. It does not clear the worklist, so the board
  stays as it is, and `clickHandler` refuses every move on that board
  (`Driver.TickIdle`, `Driver.ClickWhileBusy`). Only an undo leaves it:
  the frozen board came from a move on a copy, so it always has a
  previous graph to return to.
- **No turn skipping after a move.** After a cascade, `loop` passes the
  turn to the next seat without skipping anyone. Only `nextTurn` skips
  players who hold nothing on a full board, and the driver never calls
  it.
- **Cascades are not atomic.** A cascade advances one `splode` per frame
  of `loop`, not atomically in one call.

## Model

| member | source | states |
|---|---|---|
| BoardState.TallySumIsOccupied | base.js:208-215 | the sum `isFull` accumulates over the players' tallies equals the number of claimed nodes, and is at most the number of nodes |
| BoardState.FullIffNoneUnclaimed | base.js:208-215 | `isFull` holds exactly when no node is owned by `empty` |
| BoardState.WinnerIffOwnsAll | base.js:198-205 | `hasWinner` holds exactly when one player owns every node |
| BoardState.FullBoardHasLivePlayer | base.js:270-277 | on a full board with at least one node, some player's tally is positive |
| Building.Initial | base.js:69-103 | a new graph has no nodes, the given players with zero tallies, the turn at seat 0, an empty worklist and a zero step count, and satisfies the invariant |
| Building.AddNode | base.js:105-108 | appends one node with no tokens, no owner and only its self-link; every other field is unchanged, no player wins and the board is not full |
| Building.AddNeighbor | base.js:24-27 | appends `w` to the list of `v` and changes nothing else; the invariant is kept |
| Engine.Graph.constructor | base.js:69-103 | the new graph holds `Building.Initial(players)` and has no undo link |
| Engine.Graph.AddNode | base.js:105-108 | the graph now holds `Building.AddNode` of its old board |
| Engine.Graph.AddNeighbor | base.js:24-27 | only node `v`'s list changes, by `w` appended at its end |
| Cascade.Capture | base.js:182-189 | the node gains one token and is owned by the current player; when the owner changes, the old owner's tally drops by one unless it is `empty` and the current player's rises by one, and every other tally stays; no other node changes |
| Cascade.CaptureKeepsInv | base.js:182-189 | after a capture every tally still equals the number of nodes its player owns |
| Engine.Graph.Capture | base.js:182-189 | the graph holds `Cascade.Capture` of its old board |
| Cascade.Distribute | base.js:181-191 | handing one token to each entry of a list adds the list's length to the total and appends the list to the worklist, in order |
| Cascade.DistributeOwners | base.js:181-191 | after the hand-out, every node named in the list is owned by the current player, and every other node keeps its owner |
| Cascade.DistributeKeepsInv | base.js:181-191 | the hand-out keeps the invariant |
| Cascade.DistributeCountAt | base.js:181-191 | each node gains as many tokens as the list names it |
| Engine.Graph.Hand | base.js:182-190 | one round of the loop: a capture, then the node is pushed on the worklist |
| Engine.Graph.Spread | base.js:181-191 | the loop over the neighbour list leaves the graph holding `Cascade.Distribute` of the old board |
| Cascade.Pop | base.js:167-173 | the last worklist entry is removed (the worklist is last-in first-out) and the step count rises by one; when some player has won, the whole worklist is cleared; tokens, owners and tallies are unchanged |
| Cascade.PopKeepsInv | base.js:167-173 | the pop keeps the invariant |
| Engine.Graph.Pop | base.js:167-173 | the graph holds `Cascade.Pop` of its old board, and the popped node is the old last worklist entry |
| Cascade.Drain | base.js:176-178 | a firing node loses as many tokens as its list is long, and its count stays non-negative; nothing else changes |
| Cascade.Fire | base.js:176-191 | a firing keeps the total number of tokens and appends the node's neighbour list to the worklist |
| Cascade.FireKeepsInv | base.js:176-191 | a firing keeps the invariant: counts stay non-negative and tallies stay exact |
| Cascade.FireOwners | base.js:176-191 | after a firing, every node in the list is owned by the current player and every other node keeps its owner |
| Cascade.FiringCount | base.js:176-191 | a firing node whose list names it only at its head ends with its old count minus its degree |
| Engine.Graph.Fire | base.js:176-191 | the graph holds `Cascade.Fire` of its old board |
| Cascade.Splode | base.js:165-194 | one `splode` step keeps the total number of tokens and adds one to the step count; the worklist loses its last entry (or all entries when there is a winner) and gains that node's list if it fires |
| Cascade.SplodeKeepsInv | base.js:165-194 | a `splode` step keeps the invariant |
| Cascade.SplodeKeepsWinner | base.js:170-191 | when the current player owns every node, they still own every node after the step, and a winner is still reported |
| Engine.Graph.Splode | base.js:165-194 | the graph holds `Cascade.Splode` of its old board; the result says whether the popped node had enough tokens to fire |
| Cascade.Settle | base.js:155-160 | `stillProcessing` resets the step count exactly when the worklist is empty, and changes nothing else |
| Cascade.SettleKeepsInv | base.js:155-160 | `stillProcessing` keeps the invariant |
| Engine.Graph.StillProcessing | base.js:155-160 | the answer is whether the worklist is non-empty, and the graph holds `Cascade.Settle` of its old board |
| Engine.Graph.HasWinner | base.js:198-205 | the answer is whether one player owns every node |
| Engine.Graph.IsFull | base.js:208-215 | the answer is whether every node is claimed |
| Cascade.Place | test.js:678-687 | a move puts one token on the chosen node and gives the node to the current player; when the owner changes, the old owner's tally drops by one unless it is `empty` and the current player's rises by one, and every other tally stays; the worklist becomes that node alone; no other node changes |
| Cascade.PlaceKeepsInv | test.js:678-687 | a move keeps the invariant |
| Engine.Graph.Place | test.js:678-687 | the graph holds `Cascade.Place` of its old board |
| Turns.Succ | base.js:273 | the next seat is one on, wrapping from the last seat to seat 0 |
| Turns.NextTurn | base.js:270-277 | `nextTurn` changes only the turn, and keeps the invariant |
| Turns.AdvanceIsFirstLive | base.js:271-276 | from seat `i`, the do-while loop stops at a seat whose player is not skipped, and every seat it passes is skipped |
| Turns.NextTurnPicksFirstLive | base.js:270-277 | on a board with nodes the loop ends; it picks the first seat after the current one whose player holds a node or the board is not full, and every seat in between is skipped |
| Turns.NextTurnStep | base.js:271-276 | each round of the loop moves one seat on, and it goes round again exactly while it has not reached the chosen seat |
| Turns.NextTurnBeforeFull | base.js:270-277 | while the board is not full, the turn passes to the next seat |
| Engine.Graph.NextTurn | base.js:270-277 | the graph holds `Turns.NextTurn` of its old board, and the new current player holds a node unless the board still has room |
| Engine.Graph.SetTurn | test.js:713-714 | only the turn changes: the index is the given seat, and the current player is the player at that seat |
| Snapshot.Others | base.js:236-242 | the copied list of node `i` has the nodes other than `i`, below the node count, that the old list names, in increasing order |
| Snapshot.CopyListSameNodes | base.js:235-242 | a copied list names exactly the nodes the old list names |
| Snapshot.Duplicated | base.js:218-267 | the copy has the same counts, owners, tallies, players and turn, an empty worklist and a zero step count |
| Snapshot.DuplicatedKeepsInv | base.js:218-267 | the copy keeps the invariant; each copied list names the same nodes as the old one and starts with its own node |
| Snapshot.CopyListNoDup | base.js:235-242 | a copied list never names a node twice |
| Snapshot.DuplicateKeepsDegree | base.js:235-242 | when a node's list has no repeats, its copy has the same length, so a node's firing threshold survives the copy |
| Snapshot.DuplicateIdempotent | base.js:218-267 | copying a copy gives the same board again |
| Engine.Graph.Duplicate | base.js:218-267 | with a pending worklist there is no copy; otherwise a fresh graph holds `Snapshot.Duplicated` of the board, and its undo link is this graph |
| Engine.Graph.Restore | base.js:244-262 | the new graph holds the given board and links back to the old one |
| Engine.Graph.CopyNodes | base.js:226-233 | the copied nodes have the old counts and owners, and each has only its self-link |
| Engine.Graph.CopyEdges | base.js:235-242 | the nested loop builds every node's copied list |
| Engine.Graph.CopyRow | base.js:237-241 | the inner loop builds one node's copied list |
| Engine.Graph.CopyTallies | base.js:244-252 | the copied tallies equal the old ones |
| Removal.IndexOf | base.js:116 | `indexOf` gives the first position holding the node, or -1 exactly when the list does not name it |
| Removal.Splice | base.js:116 | `splice(k, 1)` removes the entry at `k`, and `splice(-1, 1)` removes the last entry; the list is one shorter |
| Removal.UnlinkOnce | base.js:115-117 | unlinking a node from a list without repeats keeps every other entry, and nothing else, and the head stays first |
| Removal.DetachEach | base.js:115-117 | the loop unlinks the removed node from the list of each node it names, and leaves every other list alone |
| Removal.DetachedList | base.js:114-117 | on a symmetric, repeat-free graph, each remaining list keeps its self-link and loses exactly the removed node |
| Removal.RmNode | base.js:111-118 | removal leaves one node fewer and removes that node's tokens from the total; the other nodes keep their tokens and owners, one place lower when they come after it; players, tallies and turn are unchanged |
| Removal.RmNodeListFacts | base.js:111-118 | each remaining node's new list starts with itself, names only remaining nodes, and names the same neighbours as before apart from the removed one |
| Removal.RmNodeKeepsInv | base.js:111-118 | removing an unclaimed node that is not on the worklist from a symmetric, repeat-free graph keeps the invariant |
| Removal.RmNodeKeepsAdjacency | base.js:111-118 | two remaining nodes are adjacent after the removal exactly when they were before, and no remaining list names the removed node |
| Removal.RmClaimedNodeLeavesTally | base.js:111-118 | removing a claimed node leaves its owner's tally one higher than the nodes that player still owns |
| Engine.Graph.Unhooked | base.js:114-117 | gives the neighbour lists as they are after the unlinking loop |
| Engine.Graph.RmNode | base.js:111-118 | the graph holds `Removal.RmNode` of its old board |
| Boards.RectList | test.js:301-311 | every list `RectGraph` builds starts with its node and names only nodes of the grid |
| Boards.RectListMembers | test.js:301-311 | node `v` is in the list of `u` exactly when they are orthogonal neighbours in the grid |
| Boards.GridAdjacentSymmetric | test.js:301-311 | grid adjacency is symmetric |
| Boards.RectSymmetric | test.js:301-311 | `RectGraph` builds a symmetric digraph, as the class comment of `Graph` asks |
| Boards.RectNoDup | test.js:301-311 | no list of `RectGraph` names a node twice |
| Boards.PathShape | test.js:359-365 | on a path, node `i`'s list is itself, then `i-1` if there is one, then `i+1` if there is one |
| Boards.AllButFacts | test.js:418-424 | the inner loop of `CompleteGraph` appends every node below `j` except `i`, in increasing order |
| Boards.CompleteShape | test.js:418-424 | every list `CompleteGraph` builds has one entry per node, names every node and none twice |
| Boards.BlankGrows | test.js:294-298 | the empty boards satisfy the invariant, and one `addNode` turns the board with `k` nodes into the board with `k+1` |
| Boards.AddNodes | test.js:294-298 | `m` rounds of `addNode` turn the board with `k` fresh nodes into the board with `k+m` |
| Boards.NewBlank | test.js:294-298 | the nested node loops create `w*h` fresh nodes |
| Boards.LinkRect | test.js:301-311 | one round of the edge loop gives node `i` exactly its grid list and changes no other list |
| Boards.LinkRectAll | test.js:301-311 | the edge loop gives every node its grid list |
| Boards.NewRect | test.js:284-316 | `RectGraph(w, h)` builds exactly the grid board, with no undo link |
| Boards.RectBoardShaped | test.js:284-316 | the grid board satisfies the invariant, and is symmetric and repeat-free, so `rmNode` may be used on it |
| Boards.NewSquare | test.js:323-329 | `SquareGraph(w)` is the `w`×`w` grid board |
| Boards.NewPath | test.js:359-365 | `PathGraph(w)` is the `w`×1 grid board, in which each node is linked to the nodes before and after it |
| Boards.LinkComplete | test.js:419-423 | one round of the outer edge loop gives a node itself followed by every other node |
| Boards.LinkCompleteAll | test.js:418-424 | the edge loops give every node its complete list |
| Boards.NewComplete | test.js:405-428 | `CompleteGraph(n)` builds exactly the complete board on `n` nodes |
| Boards.CompleteBoardShaped | test.js:405-428 | the complete board satisfies the invariant, and is symmetric and repeat-free |
| Driver.FirstFromIs | test.js:671-674 | scanning from node `i`, the first node that takes the click is found; when there is none, no node from `i` on takes it |
| Driver.FirstMoveIs | test.js:671-674 | the click plays node `m` exactly when no cascade is pending, node `m` takes the click and no earlier node does |
| Driver.FirstMoveNone | test.js:671-674 | the click plays nothing exactly when a cascade is pending or no node takes it |
| Driver.Clicked | test.js:663-690 | a click never changes the players or the turn, keeps the number of nodes, and adds at most one token |
| Driver.ClickedKeepsInv | test.js:663-690 | a click keeps the invariant |
| Driver.ClickPlays | test.js:674-687 | a played click adds one token to the total, puts it on the chosen node owned by the current player, leaves the other nodes alone, makes that node the whole worklist and keeps the turn |
| Driver.ClickIgnored | test.js:671-674 | a click that no node takes changes no token, owner, tally, worklist entry or turn |
| Driver.ClickWhileBusy | test.js:674 | a click during a cascade leaves the board exactly as it was |
| Driver.ClickHandler | test.js:663-690 | a click in the bottom margin first steps back to the previous graph, if there is one; the resulting graph is the click applied to that graph; a played move gives a fresh graph linked back to it whose footprint is itself plus that graph's, and otherwise it stays current; only the graph clicked on may change, so every older graph down the undo chain keeps its board; the graph left behind as the undo point keeps its board (only its step count is reset), its own undo link and its footprint |
| Driver.MoveThenUndo | test.js:663-690 | a click that plays a move followed by a click in the margin that hits no node returns to the graph the move was made on, holding its pre-move board (step count reset) and its own undo link |
| Driver.PlayClick | test.js:671-689 | the loop over the nodes plays the first node that takes the click, on a fresh copy; the graph it was copied from keeps its board, settled, and its undo link |
| Driver.ClickRound | test.js:674-687 | one round of that loop copies the graph and plays the node when it takes the click, and otherwise only settles the graph |
| Driver.PassTurn | test.js:712-714 | the turn passes to the next seat, wrapping round, without skipping anyone |
| Driver.Tick | test.js:702-720 | a frame keeps the players and the adjacency, and never takes the step count past the cap of 30000 unless it was already there |
| Driver.TickKeepsInv | test.js:709-715 | a frame keeps the invariant, the total number of tokens, the adjacency and the players |
| Driver.TickPassesTurn | test.js:712-714 | the turn passes exactly when the frame takes a step that empties the worklist; otherwise it stays where it was |
| Driver.TickIdle | test.js:709 | a frame that takes no step only settles the board, and leaves a pending cascade untouched, even when the cap has frozen it |
| Driver.TickCounts | test.js:709-710 | a step that leaves work pending adds one to the step count, which stays within the cap |
| Driver.RunConserves | test.js:702-720 | any number of frames keep the invariant, the total number of tokens and the adjacency |
| Driver.Loop | test.js:702-720 | one frame leaves the graph holding `Tick` of its old board; the result says whether the node the frame popped had enough tokens to fire |
| Driver.LoopStep | test.js:710-715 | the step holds `Step` of the old board: a `splode`, a settle, then the turn passes when the worklist is empty |

## Left out

- Drawing, scaling and hit-testing (`Node.contains`, `determineBoundaries`, `scale`, `scaleBack`, `drawGraph`) are left out. The click reaches the model as `hit` (which nodes the pointer lies in) and `inMargin` (the pointer is in the bottom strip).
- The frame clock and `splodeTime` are left out. Whether a frame is due becomes the parameter `due`, and the delay after a firing is not modelled.
- Node coordinates and radii, `nodeWidth`/`nodeHeight`/`size`, the bounding box fields, player names and colours, and the `console.log` calls play no part in the rules and are not modelled.
- The geometric builders (`CycleGraph`, `WheelGraph`, `DiamondGraph`, `geometric`) place edges by distance, which needs floating point. They are not part of this model.
- The label `loop` draws from `hasWinner()` only affects the display and is not modelled.
- The copy of `Graph` in test.js has the same fields and methods as base.js but no `isFull` or `nextTurn`; it is modelled once.
- Engine.Graph.Duplicate: the source builds the copy's tallies from the global `players` list; the model uses the graph's own `players`, which is the same list in the game.
- Engine.Graph.Duplicate: the copied lists name the same nodes in increasing order with repeats dropped, which is what the source's nested loop does. `Snapshot.DuplicateKeepsDegree` shows that the length survives only when the old list had no repeats.
- Engine.Graph.Pop: `hasWinner` is asked before the pop rather than after. It reads only the tallies, which the pop does not change, so the answer is the same.
- Engine.Graph.RmNode: requires the node to be unclaimed and off the worklist, and the adjacency to be symmetric and repeat-free. Outside that, the source leaves a stale tally (`Removal.RmClaimedNodeLeavesTally`) or dangling worklist and list entries, which the board invariant excludes. `Removal.RmNode` itself is defined on every board.
- Building.Initial: requires at least one player, no player twice and none of them `empty`. The source reads `players[0]` and keys the tallies by player, so it relies on the same.
- Turns.NextTurnIndex: the do-while loop is given one round of seats as fuel. `Turns.NextTurnPicksFirstLive` shows that the loop always stops within that round on a board with nodes.
