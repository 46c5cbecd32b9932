/** `rmNode` (base.js:111-118, test.js:124-131): the node leaves the graph,
    drops its own self-link, and is taken out of the list of every node it
    names. Nodes are objects in the source and positions here, so the
    nodes after the removed one move down by one place. */
module Removal {
  import opened BoardState
  import opened Snapshot

  /** `l.indexOf(x)`: the first position holding `x`, or -1. */
  function IndexOf(l: seq<nat>, x: nat): (k: int)
    ensures -1 <= k < |l|
    ensures k == -1 <==> x !in l
    ensures k >= 0 ==> l[k] == x && x !in l[..k]
  {
    if l == [] then -1
    else if l[0] == x then 0
    else
      var k := IndexOf(l[1..], x);
      if k == -1 then -1
      else
        assert l[..k + 1] == [l[0]] + l[1..][..k];
        k + 1
  }

  /** `l.splice(k, 1)`: removes the entry at position `k`; JavaScript
      reads -1 as the last position. */
  function Splice(l: seq<nat>, k: int): (r: seq<nat>)
    requires -1 <= k < |l|
    ensures |r| == if l == [] then 0 else |l| - 1
    ensures l != [] && k >= 0 ==> forall j :: 0 <= j < |r| ==> r[j] == if j < k then l[j] else l[j + 1]
    ensures l != [] && k == -1 ==> r == l[..|l| - 1]
  {
    if l == [] then []
    else
      var i := if k == -1 then |l| - 1 else k;
      l[..i] + l[i + 1..]
  }

  /** `l.splice(l.indexOf(v), 1)`, base.js:116. */
  function Unlink(l: seq<nat>, v: nat): seq<nat>
  {
    Splice(l, IndexOf(l, v))
  }

  /** Taking `v` out of a list that names it once leaves every other node
      of the list, in order, and nothing else. */
  lemma UnlinkOnce(l: seq<nat>, v: nat)
    requires NoDup(l) && v in l
    ensures forall x :: x in Unlink(l, v) <==> x in l && x != v
    ensures NoDup(Unlink(l, v))
    ensures l[0] != v ==> Unlink(l, v)[0] == l[0]
  {
    var k := IndexOf(l, v);
    var r := Unlink(l, v);
    forall x ensures x in r <==> x in l && x != v {
      if x in l && x != v {
        var j :| 0 <= j < |l| && l[j] == x;
        assert j != k;
        if j < k { assert r[j] == x; } else { assert r[j - 1] == x; }
      }
      if x in r {
        var j :| 0 <= j < |r| && r[j] == x;
        if j < k { assert l[j] == x; } else { assert l[j + 1] == x; }
      }
    }
    forall a, b | 0 <= a < b < |r| ensures r[a] != r[b] {
      var a' := if a < k then a else a + 1;
      var b' := if b < k then b else b + 1;
      assert r[a] == l[a'] && r[b] == l[b'] && a' < b';
    }
  }

  /** The loop of base.js:115-117: every node of `ws`, in order, loses its
      first mention of `v`. */
  function Detach(nb: seq<seq<nat>>, v: nat, ws: seq<nat>): (r: seq<seq<nat>>)
    requires forall k :: 0 <= k < |ws| ==> ws[k] < |nb|
    ensures |r| == |nb|
    decreases |ws|
  {
    if ws == [] then nb
    else
      var d := Detach(nb, v, ws[..|ws| - 1]);
      var w := ws[|ws| - 1];
      d[w := Unlink(d[w], v)]
  }

  /** When `ws` names no node twice, each node of `ws` is unlinked from
      `v` once and every other list is left alone. */
  lemma {:induction false} DetachEach(nb: seq<seq<nat>>, v: nat, ws: seq<nat>)
    requires forall k :: 0 <= k < |ws| ==> ws[k] < |nb|
    requires NoDup(ws)
    ensures forall u :: 0 <= u < |nb| ==>
      Detach(nb, v, ws)[u] == if u in ws then Unlink(nb[u], v) else nb[u]
    decreases |ws|
  {
    if ws != [] {
      var init := ws[..|ws| - 1];
      assert ws == init + [ws[|ws| - 1]];
      assert NoDup(init);
      DetachEach(nb, v, init);
      assert ws[|ws| - 1] !in init;
    }
  }

  /** The position node `x` moves to once node `v` is gone. */
  function Shift(x: nat, v: nat): nat
  {
    if x > v then x - 1 else x
  }

  function ShiftAll(l: seq<nat>, v: nat): (r: seq<nat>)
    ensures |r| == |l|
    ensures forall k :: 0 <= k < |l| ==> r[k] == Shift(l[k], v)
  {
    seq(|l|, k requires 0 <= k < |l| => Shift(l[k], v))
  }

  function ShiftLists(nb: seq<seq<nat>>, v: nat): (r: seq<seq<nat>>)
    ensures |r| == |nb|
    ensures forall i :: 0 <= i < |nb| ==> r[i] == ShiftAll(nb[i], v)
  {
    seq(|nb|, i requires 0 <= i < |nb| => ShiftAll(nb[i], v))
  }

  /** `s` without its entry at position `v` (`nodes.splice(v, 1)`). */
  function Without<T>(s: seq<T>, v: nat): (r: seq<T>)
    requires v < |s|
    ensures |r| == |s| - 1
    ensures forall i :: 0 <= i < |r| ==> r[i] == if i < v then s[i] else s[i + 1]
  {
    s[..v] + s[v + 1..]
  }

  /** The neighbour lists right after the loop of `rmNode`, before the
      node leaves the arena: the node's own list has lost its self-link
      (`node.neighbors.splice(0, 1)`) and each node it names has been
      unlinked from it. */
  function Detached(s: GraphState, v: nat): (nb: seq<seq<nat>>)
    requires Inv(s) && v < |s.count|
    ensures |nb| == |s.count|
  {
    var own := s.neighbors[v][1..];
    assert forall k :: 0 <= k < |own| ==> own[k] == s.neighbors[v][k + 1];
    Detach(s.neighbors[v := own], v, own)
  }

  /** The board after `rmNode(nodes[v])`. The tallies are left as they
      are, as in the source. */
  function RmNode(s: GraphState, v: nat): (r: GraphState)
    requires Inv(s) && v < |s.count|
    ensures |r.count| == |s.count| - 1 && |r.player| == |s.player| - 1
    ensures |r.neighbors| == |s.neighbors| - 1
    ensures Sum(r.count) == Sum(s.count) - s.count[v]
    ensures forall u :: 0 <= u < |s.count| && u != v ==>
      r.count[Shift(u, v)] == s.count[u] && r.player[Shift(u, v)] == s.player[u]
    ensures r.players == s.players && r.playerCounts == s.playerCounts
    ensures r.currIndex == s.currIndex && r.currPlayer == s.currPlayer && r.overflow == s.overflow
  {
    SumRemove(s.count, v);
    s.(count := Without(s.count, v),
       player := Without(s.player, v),
       neighbors := Without(ShiftLists(Detached(s, v), v), v),
       toProcess := ShiftAll(s.toProcess, v))
  }

  /** Every node other than `v` names `v` exactly when `v` names it (the
      symmetric digraph the class comment of `Graph` asks for). */
  predicate SymmetricAt(s: GraphState, v: nat)
    requires Inv(s) && v < |s.count|
  {
    forall u :: 0 <= u < |s.count| && u != v ==> (v in s.neighbors[u] <==> u in s.neighbors[v])
  }

  /** No neighbour list names a node twice. */
  predicate Simple(s: GraphState)
    requires Inv(s)
  {
    forall u :: 0 <= u < |s.count| ==> NoDup(s.neighbors[u])
  }

  /** After the loop, the list of every other node `u` keeps its self-link
      first and names every node it named before except `v`, once each. */
  lemma DetachedList(s: GraphState, v: nat, u: nat)
    requires Inv(s) && v < |s.count| && u < |s.count| && u != v
    requires SymmetricAt(s, v) && Simple(s)
    ensures var l := Detached(s, v)[u];
      && |l| >= 1 && l[0] == u && NoDup(l)
      && forall x :: x in l <==> x in s.neighbors[u] && x != v
  {
    var own := s.neighbors[v][1..];
    var nb := s.neighbors[v := own];
    assert forall k :: 0 <= k < |own| ==> own[k] == s.neighbors[v][k + 1];
    assert NoDup(own) by {
      assert NoDup(s.neighbors[v]);
    }
    DetachEach(nb, v, own);
    assert nb[u] == s.neighbors[u];
    assert s.neighbors[u][0] == u;
    assert u in own <==> u in s.neighbors[v] by {
      assert s.neighbors[v] == [v] + own;
    }
    if u in own {
      UnlinkOnce(s.neighbors[u], v);
    }
  }

  /** Where the list of a remaining node ends up. */
  lemma RmNodeList(s: GraphState, v: nat, u: nat)
    requires Inv(s) && v < |s.count| && u < |s.count| && u != v
    ensures RmNode(s, v).neighbors[Shift(u, v)] == ShiftAll(Detached(s, v)[u], v)
  {
    var m := ShiftLists(Detached(s, v), v);
    assert Without(m, v)[Shift(u, v)] == m[u];
  }

  /** Renumbering a list that does not name `v` keeps it in bounds and
      keeps which nodes it names. */
  lemma ShiftList(l: seq<nat>, v: nat, n: nat)
    requires v < n && v !in l && forall k :: 0 <= k < |l| ==> l[k] < n
    ensures forall k :: 0 <= k < |l| ==> ShiftAll(l, v)[k] < n - 1
    ensures forall x: nat :: x < n && x != v ==> (Shift(x, v) in ShiftAll(l, v) <==> x in l)
  {
    var r := ShiftAll(l, v);
    forall k | 0 <= k < |l| ensures r[k] < n - 1 {
      assert l[k] in l;
    }
    forall x: nat | x < n && x != v ensures Shift(x, v) in r <==> x in l {
      if x in l {
        var k :| 0 <= k < |l| && l[k] == x;
        assert r[k] == Shift(x, v);
      }
      if Shift(x, v) in r {
        var k :| 0 <= k < |r| && r[k] == Shift(x, v);
        assert l[k] in l;
      }
    }
  }

  /** The list of a remaining node after `rmNode`, under its new position. */
  lemma RmNodeListFacts(s: GraphState, v: nat, u: nat)
    requires Inv(s) && v < |s.count| && u < |s.count| && u != v
    requires SymmetricAt(s, v) && Simple(s)
    ensures var l := RmNode(s, v).neighbors[Shift(u, v)];
      && |l| >= 1 && l[0] == Shift(u, v)
      && (forall k :: 0 <= k < |l| ==> l[k] < |s.count| - 1)
      && forall x: nat :: x < |s.count| && x != v ==> (Shift(x, v) in l <==> x in s.neighbors[u])
  {
    var d := Detached(s, v)[u];
    DetachedList(s, v, u);
    RmNodeList(s, v, u);
    forall k | 0 <= k < |d| ensures d[k] < |s.count| {
      assert d[k] in d;
      assert d[k] in s.neighbors[u];
      var j :| 0 <= j < |s.neighbors[u]| && s.neighbors[u][j] == d[k];
    }
    ShiftList(d, v, |s.count|);
  }

  /** The neighbour lists after `rmNode` have the shape the invariant asks for. */
  lemma RmNodeListsShaped(s: GraphState, v: nat)
    requires Inv(s) && v < |s.count| && SymmetricAt(s, v) && Simple(s)
    ensures var nb := RmNode(s, v).neighbors;
      && (forall i :: 0 <= i < |nb| ==> |nb[i]| >= 1 && nb[i][0] == i)
      && (forall i, k :: 0 <= i < |nb| && 0 <= k < |nb[i]| ==> nb[i][k] < |nb|)
  {
    var nb := RmNode(s, v).neighbors;
    forall i | 0 <= i < |nb|
      ensures |nb[i]| >= 1 && nb[i][0] == i
      ensures forall k :: 0 <= k < |nb[i]| ==> nb[i][k] < |nb|
    {
      var u := if i < v then i else i + 1;
      assert Shift(u, v) == i;
      RmNodeListFacts(s, v, u);
    }
  }

  /** `rmNode` keeps the board invariant when the node is unclaimed and not
      waiting on the worklist, and the graph is symmetric at it with no
      repeated neighbours. */
  lemma RmNodeKeepsInv(s: GraphState, v: nat)
    requires Inv(s) && v < |s.count| && SymmetricAt(s, v) && Simple(s)
    requires s.player[v] == Empty && v !in s.toProcess
    ensures Inv(RmNode(s, v))
  {
    var r := RmNode(s, v);
    var n := |s.count|;
    RmNodeListsShaped(s, v);
    forall p | p in s.players ensures r.playerCounts[p] == CountOf(r.player, p) {
      CountOfRemove(s.player, v, p);
    }
    forall k | 0 <= k < |r.toProcess| ensures r.toProcess[k] < n - 1 {
      assert s.toProcess[k] in s.toProcess;
    }
  }

  /** After `rmNode`, every remaining node names exactly the remaining
      nodes it named before, under their new positions, and no list names
      the removed node any more. */
  lemma RmNodeKeepsAdjacency(s: GraphState, v: nat)
    requires Inv(s) && v < |s.count| && SymmetricAt(s, v) && Simple(s)
    ensures forall u, x :: 0 <= u < |s.count| && 0 <= x < |s.count| && u != v && x != v ==>
      (Shift(x, v) in RmNode(s, v).neighbors[Shift(u, v)] <==> x in s.neighbors[u])
    ensures forall u :: 0 <= u < |s.count| && u != v ==> v !in Detached(s, v)[u]
  {
    forall u | 0 <= u < |s.count| && u != v
      ensures forall x :: 0 <= x < |s.count| && x != v ==>
        (Shift(x, v) in RmNode(s, v).neighbors[Shift(u, v)] <==> x in s.neighbors[u])
      ensures v !in Detached(s, v)[u]
    {
      RmNodeListFacts(s, v, u);
      DetachedList(s, v, u);
    }
  }

  /** Removing a claimed node leaves its owner's tally one too high: the
      source does not adjust `playerCounts`, which is why `RmNodeKeepsInv`
      asks for an unclaimed node. */
  lemma RmClaimedNodeLeavesTally(s: GraphState, v: nat)
    requires Inv(s) && v < |s.count| && s.player[v] != Empty
    ensures RmNode(s, v).playerCounts[s.player[v]] == CountOf(RmNode(s, v).player, s.player[v]) + 1
  {
    CountOfRemove(s.player, v, s.player[v]);
  }
}
