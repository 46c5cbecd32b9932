/** The integer board builders of test.js: `RectGraph` (test.js:284-316)
    with its special cases `SquareGraph` (test.js:323-329) and `PathGraph`
    (test.js:359-365), and `CompleteGraph` (test.js:405-427). Each list is
    stated as a function of the node index; the builders fill a new
    `Engine.Graph` in the source's loops and are proved to produce exactly
    those lists. */
module Boards {
  import opened BoardState
  import Snapshot
  import Removal
  import Building
  import Engine

  // ---------------------------------------------------------------------
  // Grid arithmetic

  /** Division with remainder is unique. */
  lemma DivModUnique(n: int, h: int, q: int, r: int)
    requires h > 0 && 0 <= r < h && n == h * q + r
    ensures n / h == q && n % h == r
  {
    var q', r' := n / h, n % h;
    assert n == h * q' + r';
    if q' < q {
      assert h * q - h * q' == h * (q - q');
      MulAtLeast(h, q - q');
    } else if q' > q {
      assert h * q' - h * q == h * (q' - q);
      MulAtLeast(h, q' - q);
    }
  }

  lemma MulAtLeast(h: int, k: int)
    requires h > 0 && k >= 1
    ensures h * k >= h
  {
  }

  /** The row below in the same column: `i + 1` stays in column `i / h`
      when `i` is not at the top of its column. */
  lemma ModSucc(i: nat, h: nat)
    requires h > 0 && i % h != h - 1
    ensures (i + 1) % h == i % h + 1 && (i + 1) % h != 0
  {
    DivModUnique(i + 1, h, i / h, i % h + 1);
  }

  /** Stepping down from a node not at the bottom of its column. */
  lemma ModPred(i: nat, h: nat)
    requires h > 0 && i % h != 0
    ensures i >= 1 && (i - 1) % h == i % h - 1 && (i - 1) % h != h - 1
  {
    DivModUnique(i - 1, h, i / h, i % h - 1);
  }

  lemma ModOne(i: nat)
    ensures i % 1 == 0
  {
    DivModUnique(i, 1, i, 0);
  }

  /** A grid of `w` columns of height `h` holds `w * h` nodes, and one
      column fewer `h` less. */
  lemma GridSize(w: nat, h: nat, i: nat)
    requires i < w * h
    ensures h > 0 && w > 0 && (w - 1) * h == w * h - h
  {
    assert w * h > 0;
  }

  /** The node above a node not at the top of its column is in the grid. */
  lemma UpStaysInside(w: nat, h: nat, i: nat)
    requires i < w * h
    ensures h > 0
    ensures i % h != h - 1 ==> i + 1 < w * h
  {
    GridSize(w, h, i);
    var q, r := i / h, i % h;
    assert i == h * q + r;
    if r != h - 1 && i + 1 >= w * h {
      DivModUnique(i + 1, h, q, r + 1);
      assert i + 1 == w * h;
      DivModUnique(i + 1, h, w, 0);
    }
  }

  // ---------------------------------------------------------------------
  // RectGraph

  /** The neighbour list `RectGraph(w, h)` gives node `i`
      (test.js:301-311): the self-link from the `Node` constructor, then
      the node one column left, the node above, the node one column right
      and the node below, each only when it lies inside the grid. */
  function RectList(w: nat, h: nat, i: nat): (l: seq<nat>)
    requires i < w * h
    ensures |l| >= 1 && l[0] == i
    ensures forall k :: 0 <= k < |l| ==> l[k] < w * h
  {
    GridSize(w, h, i);
    UpStaysInside(w, h, i);
    [i] + (if i >= h then [i - h] else [])
        + (if i % h != h - 1 then [i + 1] else [])
        + (if i < (w - 1) * h then [i + h] else [])
        + (if i % h != 0 then [i - 1] else [])
  }

  /** Every neighbour list of `RectGraph(w, h)`. */
  function RectNeighbors(w: nat, h: nat): (nb: seq<seq<nat>>)
    ensures |nb| == w * h
    ensures forall i :: 0 <= i < w * h ==> nb[i] == RectList(w, h, i)
  {
    seq(w * h, i requires 0 <= i < w * h => RectList(w, h, i))
  }

  /** Node `v` is a neighbour of `u` in the grid: left, right, above or
      below it. */
  predicate GridAdjacent(w: nat, h: nat, u: nat, v: nat)
    requires h > 0
  {
    || (u >= h && v == u - h)
    || (u % h != h - 1 && v == u + 1)
    || (u < (w - 1) * h && v == u + h)
    || (u % h != 0 && v + 1 == u)
  }

  /** The entries after the self-link are exactly the grid neighbours. */
  lemma RectListMembers(w: nat, h: nat, u: nat, v: nat)
    requires u < w * h && v != u
    ensures h > 0
    ensures v in RectList(w, h, u) <==> GridAdjacent(w, h, u, v)
  {
    GridSize(w, h, u);
  }

  /** Grid adjacency goes both ways. */
  lemma GridAdjacentSymmetric(w: nat, h: nat, u: nat, v: nat)
    requires u < w * h && v < w * h
    requires GridAdjacent(w, h, u, v)
    ensures GridAdjacent(w, h, v, u)
  {
    GridSize(w, h, u);
    if u % h != h - 1 && v == u + 1 {
      ModSucc(u, h);
    } else if u % h != 0 && v + 1 == u {
      ModPred(u, h);
    }
  }

  /** `RectGraph` is a symmetric digraph, as the class comment of `Graph`
      asks of every board (test.js:68-71): `v` is in `u`'s list exactly
      when `u` is in `v`'s. */
  lemma RectSymmetric(w: nat, h: nat, u: nat, v: nat)
    requires u < w * h && v < w * h && u != v
    ensures v in RectList(w, h, u) <==> u in RectList(w, h, v)
  {
    RectListMembers(w, h, u, v);
    RectListMembers(w, h, v, u);
    if GridAdjacent(w, h, u, v) { GridAdjacentSymmetric(w, h, u, v); }
    if GridAdjacent(w, h, v, u) { GridAdjacentSymmetric(w, h, v, u); }
  }

  /** No list of `RectGraph` names a node twice. */
  lemma RectNoDup(w: nat, h: nat, i: nat)
    requires i < w * h
    ensures Snapshot.NoDup(RectList(w, h, i))
  {
    GridSize(w, h, i);
    if h == 1 { ModOne(i); }
  }

  /** `PathGraph(w)` is `RectGraph(w, 1)`: each node is linked only to the
      node before and the node after it, where they exist
      (test.js:359-365). */
  lemma PathShape(w: nat, i: nat)
    requires i < w
    ensures RectList(w, 1, i) ==
      [i] + (if i >= 1 then [i - 1] else []) + (if i + 1 < w then [i + 1] else [])
  {
    ModOne(i);
  }

  // ---------------------------------------------------------------------
  // CompleteGraph

  /** The nodes below `j` other than `i`, in increasing order: what the
      inner loop of test.js:418-424 appends to node `i`'s list in its first
      `j` rounds. */
  function AllBut(i: nat, j: nat): seq<nat>
  {
    if j == 0 then []
    else if j - 1 != i then AllBut(i, j - 1) + [j - 1]
    else AllBut(i, j - 1)
  }

  /** `AllBut(i, j)` lists each node below `j` other than `i` once, in
      increasing order. */
  lemma {:induction false} AllButFacts(i: nat, j: nat)
    ensures forall x :: x in AllBut(i, j) <==> 0 <= x < j && x != i
    ensures |AllBut(i, j)| == if i < j then j - 1 else j
    ensures Snapshot.Increasing(AllBut(i, j))
  {
    if j > 0 {
      AllButFacts(i, j - 1);
      var r := AllBut(i, j - 1);
      assert forall a :: 0 <= a < |r| ==> r[a] in r;
    }
  }

  /** The neighbour list `CompleteGraph(n)` gives node `i`. */
  function CompleteList(n: nat, i: nat): seq<nat>
  {
    [i] + AllBut(i, n)
  }

  /** Every node of `CompleteGraph(n)` is linked to every node, itself
      first, each exactly once: a list of length `n` with no repeats. */
  lemma CompleteShape(n: nat, i: nat)
    requires i < n
    ensures |CompleteList(n, i)| == n
    ensures forall x :: x in CompleteList(n, i) <==> 0 <= x < n
    ensures Snapshot.NoDup(CompleteList(n, i))
  {
    AllButFacts(i, n);
    var o := AllBut(i, n);
    forall a, b | 0 <= a < b < |o| + 1 ensures CompleteList(n, i)[a] != CompleteList(n, i)[b] {
      if a > 0 { assert o[a - 1] < o[b - 1]; } else { assert o[b - 1] in o; }
    }
  }

  /** Every neighbour list of `CompleteGraph(n)`. */
  function CompleteNeighbors(n: nat): (nb: seq<seq<nat>>)
    ensures |nb| == n
    ensures forall i :: 0 <= i < n ==> nb[i] == CompleteList(n, i)
  {
    seq(n, i requires 0 <= i < n => CompleteList(n, i))
  }

  // ---------------------------------------------------------------------
  // Builders

  /** `new Graph(ps)` after `k` calls of `addNode`: `k` nodes without
      tokens or owner, each linked only to itself. */
  function Blank(ps: seq<Player>, k: nat): (s: GraphState)
    requires ValidPlayers(ps)
    ensures |s.count| == k
  {
    Building.Initial(ps).(count := seq(k, _ => 0), player := seq(k, _ => Empty),
                          neighbors := seq(k, u => [u]))
  }

  /** Every blank board is valid, and one more `addNode` gives the blank
      board with one more node. */
  lemma BlankGrows(ps: seq<Player>, k: nat)
    requires ValidPlayers(ps)
    ensures Inv(Blank(ps, k))
    ensures Building.AddNode(Blank(ps, k)) == Blank(ps, k + 1)
  {
    BlankValid(ps, k);
    AddNodeToBlank(ps, k);
  }

  lemma {:induction false} BlankValid(ps: seq<Player>, k: nat)
    requires ValidPlayers(ps)
    ensures Inv(Blank(ps, k))
  {
    if k > 0 {
      BlankValid(ps, k - 1);
      AddNodeToBlank(ps, k - 1);
    }
  }

  lemma AddNodeToBlank(ps: seq<Player>, k: nat)
    requires ValidPlayers(ps) && Inv(Blank(ps, k))
    ensures Building.AddNode(Blank(ps, k)) == Blank(ps, k + 1)
  {
    var b, r := Blank(ps, k), Building.AddNode(Blank(ps, k));
    Snoc(r.count, b.count, 0);
    Snoc(r.player, b.player, Empty);
    Snoc(r.neighbors, b.neighbors, [k]);
  }

  /** A sequence one longer than `a` that starts with `a` and ends in `x`
      is `a + [x]`. */
  lemma Snoc<T>(r: seq<T>, a: seq<T>, x: T)
    requires |r| == |a| + 1 && r[..|a|] == a && r[|a|] == x
    ensures r == a + [x]
  {
    assert r == r[..|a|] + [r[|a|]];
  }

  lemma MulSucc(i: nat, h: nat)
    ensures i * h + h == (i + 1) * h
  {
  }

  /** The lists of a board under construction: the first `i` nodes have
      their final lists, the others only their self-links. */
  function Partial(full: seq<seq<nat>>, i: nat): (nb: seq<seq<nat>>)
    ensures |nb| == |full|
  {
    seq(|full|, u requires 0 <= u < |full| => if u < i then full[u] else [u])
  }

  /** The board `RectGraph(w, h)` builds. */
  function RectBoard(ps: seq<Player>, w: nat, h: nat): GraphState
    requires ValidPlayers(ps)
  {
    Blank(ps, w * h).(neighbors := RectNeighbors(w, h))
  }

  /** `m` more calls of `addNode` on a blank board of `k` nodes: the node
      loops of test.js:294-298 and test.js:414-416. */
  method AddNodes(g: Engine.Graph, ghost ps: seq<Player>, ghost k: nat, m: nat)
    requires ValidPlayers(ps) && g.Valid() && g.State() == Blank(ps, k)
    modifies g
    ensures g.Valid() && g.prev == old(g.prev) && g.Repr == old(g.Repr)
    ensures g.State() == Blank(ps, k + m)
  {
    for j := 0 to m
      invariant g.Valid() && g.prev == old(g.prev) && g.Repr == old(g.Repr)
      invariant g.State() == Blank(ps, k + j)
    {
      BlankGrows(ps, k + j);
      g.AddNode();
    }
  }

  /** `new Graph(ps)` followed by the node loops of `RectGraph`
      (test.js:294-298): `w` columns of `h` nodes. */
  method NewBlank(ps: seq<Player>, w: nat, h: nat) returns (g: Engine.Graph)
    requires ValidPlayers(ps)
    ensures fresh(g) && fresh(g.Repr) && g.Valid() && g.prev == null
    ensures g.State() == Blank(ps, w * h)
  {
    g := new Engine.Graph(ps);
    BlankGrows(ps, 0);
    assert g.State() == Blank(ps, 0);
    for i := 0 to w
      invariant fresh(g) && fresh(g.Repr) && g.Valid() && g.prev == null
      invariant g.State() == Blank(ps, i * h)
    {
      AddNodes(g, ps, i * h, h);
      MulSucc(i, h);
    }
  }

  /** `new RectGraph(w, h, ps)` (test.js:286-315): `w` columns of `h` nodes,
      each linked to the grid neighbours `RectList` names, in that order. */
  method NewRect(w: nat, h: nat, ps: seq<Player>) returns (g: Engine.Graph)
    requires ValidPlayers(ps)
    ensures fresh(g) && fresh(g.Repr) && g.Valid() && g.prev == null
    ensures g.State() == RectBoard(ps, w, h)
  {
    g := NewBlank(ps, w, h);
    LinkRectAll(g, w, h);
  }

  /** The edge loop of `RectGraph` (test.js:301-311). */
  method LinkRectAll(g: Engine.Graph, w: nat, h: nat)
    requires g.Valid() && |g.count| == w * h
    requires forall u :: 0 <= u < w * h ==> g.neighbors[u] == [u]
    modifies g`neighbors
    ensures g.Valid() && g.neighbors == RectNeighbors(w, h)
  {
    ghost var full := RectNeighbors(w, h);
    assert g.neighbors == Partial(full, 0);
    for i := 0 to w * h
      invariant g.Valid() && g.neighbors == Partial(full, i)
    {
      LinkRect(g, w, h, i);
      assert g.neighbors == Partial(full, i + 1);
    }
    assert Partial(full, w * h) == full;
  }

  /** One round of the edge loop of `RectGraph` (test.js:301-311): node `i`,
      still linked only to itself, gains its grid neighbours, in the order
      of the four conditional `addNeighbor` calls that `RectList` lists. */
  method LinkRect(g: Engine.Graph, w: nat, h: nat, i: nat)
    requires g.Valid() && i < w * h && |g.count| == w * h && g.neighbors[i] == [i]
    modifies g`neighbors
    ensures g.Valid()
    ensures g.neighbors == old(g.neighbors)[i := RectList(w, h, i)]
  {
    var l := RectList(w, h, i);
    var k := 1;
    assert l[..1] == [i];
    assert g.neighbors == g.neighbors[i := l[..1]];
    while k < |l|
      invariant 1 <= k <= |l|
      invariant g.Valid() && |g.count| == w * h
      invariant g.neighbors == old(g.neighbors)[i := l[..k]]
    {
      g.AddNeighbor(i, l[k]);
      assert l[..k + 1] == l[..k] + [l[k]];
      k := k + 1;
    }
    assert l[..k] == l;
  }

  /** `new SquareGraph(w, ps)` (test.js:323-329): the `w` by `w` grid. */
  method NewSquare(w: nat, ps: seq<Player>) returns (g: Engine.Graph)
    requires ValidPlayers(ps)
    ensures fresh(g) && fresh(g.Repr) && g.Valid() && g.prev == null
    ensures g.State() == RectBoard(ps, w, w)
  {
    g := NewRect(w, w, ps);
  }

  /** `new PathGraph(w, ps)` (test.js:359-365): a grid one node high, in
      which node `i` is linked to itself, then to the node before it and
      the node after it where they exist. */
  method NewPath(w: nat, ps: seq<Player>) returns (g: Engine.Graph)
    requires ValidPlayers(ps)
    ensures fresh(g) && fresh(g.Repr) && g.Valid() && g.prev == null
    ensures g.State() == RectBoard(ps, w, 1)
    ensures forall i :: 0 <= i < w ==>
      g.neighbors[i] == [i] + (if i >= 1 then [i - 1] else []) + (if i + 1 < w then [i + 1] else [])
  {
    g := NewRect(w, 1, ps);
    forall i | 0 <= i < w
      ensures g.neighbors[i] == [i] + (if i >= 1 then [i - 1] else []) + (if i + 1 < w then [i + 1] else [])
    {
      PathShape(w, i);
    }
  }

  /** The board `CompleteGraph(n)` builds. */
  function CompleteBoard(ps: seq<Player>, n: nat): GraphState
    requires ValidPlayers(ps)
  {
    Blank(ps, n).(neighbors := CompleteNeighbors(n))
  }

  /** `new CompleteGraph(n, ps)` (test.js:407-427): `n` nodes, then every
      node linked to every other node in index order. */
  method NewComplete(n: nat, ps: seq<Player>) returns (g: Engine.Graph)
    requires ValidPlayers(ps)
    ensures fresh(g) && fresh(g.Repr) && g.Valid() && g.prev == null
    ensures g.State() == CompleteBoard(ps, n)
  {
    g := new Engine.Graph(ps);
    BlankGrows(ps, 0);
    assert g.State() == Blank(ps, 0);
    AddNodes(g, ps, 0, n);
    LinkCompleteAll(g, n);
  }

  /** The edge loops of `CompleteGraph` (test.js:418-424). */
  method LinkCompleteAll(g: Engine.Graph, n: nat)
    requires g.Valid() && |g.count| == n
    requires forall u :: 0 <= u < n ==> g.neighbors[u] == [u]
    modifies g`neighbors
    ensures g.Valid() && g.neighbors == CompleteNeighbors(n)
  {
    ghost var full := CompleteNeighbors(n);
    assert g.neighbors == Partial(full, 0);
    for i := 0 to n
      invariant g.Valid() && g.neighbors == Partial(full, i)
    {
      LinkComplete(g, n, i);
      assert g.neighbors == Partial(full, i + 1);
    }
    assert Partial(full, n) == full;
  }

  /** One round of the outer edge loop of `CompleteGraph`
      (test.js:418-424): node `i` gains every other node. */
  method LinkComplete(g: Engine.Graph, n: nat, i: nat)
    requires g.Valid() && i < n && |g.count| == n && g.neighbors[i] == [i]
    modifies g`neighbors
    ensures g.Valid()
    ensures g.neighbors == old(g.neighbors)[i := CompleteList(n, i)]
  {
    assert [i] + AllBut(i, 0) == [i];
    for j := 0 to n
      invariant g.Valid() && |g.count| == n
      invariant g.neighbors == old(g.neighbors)[i := [i] + AllBut(i, j)]
    {
      if i != j {
        g.AddNeighbor(i, j);
        assert [i] + AllBut(i, j + 1) == [i] + AllBut(i, j) + [j];
      }
    }
  }

  // ---------------------------------------------------------------------
  // The builders' boards

  /** `RectGraph(w, h)` is a valid board with no repeated neighbour and
      symmetric links at every node: the shape `rmNode` asks for. */
  lemma RectBoardShaped(ps: seq<Player>, w: nat, h: nat)
    requires ValidPlayers(ps)
    ensures Inv(RectBoard(ps, w, h))
    ensures Removal.Simple(RectBoard(ps, w, h))
    ensures forall v :: 0 <= v < w * h ==> Removal.SymmetricAt(RectBoard(ps, w, h), v)
  {
    RectBoardValid(ps, w, h);
    var s := RectBoard(ps, w, h);
    forall u | 0 <= u < w * h
      ensures Snapshot.NoDup(s.neighbors[u])
    {
      RectNoDup(w, h, u);
    }
    forall u, v | 0 <= u < w * h && 0 <= v < w * h && u != v
      ensures v in s.neighbors[u] <==> u in s.neighbors[v]
    {
      RectSymmetric(w, h, u, v);
    }
  }

  lemma RectBoardValid(ps: seq<Player>, w: nat, h: nat)
    requires ValidPlayers(ps)
    ensures Inv(RectBoard(ps, w, h))
  {
    var b := Blank(ps, w * h);
    BlankValid(ps, w * h);
    Snapshot.NewNeighborsKeepInv(b, RectNeighbors(w, h));
    assert RectBoard(ps, w, h) == b.(neighbors := RectNeighbors(w, h), toProcess := [], overflow := 0);
  }

  /** `CompleteGraph(n)` is a valid board with no repeated neighbour and
      symmetric links at every node. */
  lemma CompleteBoardShaped(ps: seq<Player>, n: nat)
    requires ValidPlayers(ps)
    ensures Inv(CompleteBoard(ps, n))
    ensures Removal.Simple(CompleteBoard(ps, n))
    ensures forall v :: 0 <= v < n ==> Removal.SymmetricAt(CompleteBoard(ps, n), v)
  {
    BlankGrows(ps, n);
    var s := CompleteBoard(ps, n);
    forall u | 0 <= u < n
      ensures Snapshot.NoDup(s.neighbors[u])
      ensures forall x :: x in s.neighbors[u] <==> 0 <= x < n
    {
      CompleteShape(n, u);
    }
    forall u, k | 0 <= u < n && 0 <= k < |s.neighbors[u]|
      ensures s.neighbors[u][k] < n
    {
      assert s.neighbors[u][k] in s.neighbors[u];
    }
  }
}
