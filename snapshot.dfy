/** What `duplicate` (base.js:218-267) copies: counts, owners, tallies and
    the turn by value, and the adjacency by index. The copy's neighbour
    lists are rebuilt from scratch: a fresh node's self-link, then every
    other node that the original list includes, in increasing order. */
module Snapshot {
  import opened BoardState

  predicate Increasing(l: seq<nat>)
  {
    forall a, b :: 0 <= a < b < |l| ==> l[a] < l[b]
  }

  predicate NoDup(l: seq<nat>)
  {
    forall a, b :: 0 <= a < b < |l| ==> l[a] != l[b]
  }

  /** The nodes `j < n` other than `i` that `l` includes, in increasing
      order: what the inner loop of base.js:237-241 appends for node `i`
      after `n` rounds. */
  function Others(l: seq<nat>, i: nat, n: nat): (r: seq<nat>)
    ensures forall x :: x in r <==> x < n && x != i && x in l
    ensures Increasing(r)
  {
    if n == 0 then []
    else
      var r := Others(l, i, n - 1);
      assert forall a :: 0 <= a < |r| ==> r[a] in r;
      if n - 1 != i && n - 1 in l then r + [n - 1] else r
  }

  /** The copy of node `i`'s neighbour list. */
  function CopyList(l: seq<nat>, i: nat, n: nat): seq<nat>
  {
    [i] + Others(l, i, n)
  }

  /** The copy of every neighbour list, matched by index. */
  function CopyNeighbors(nb: seq<seq<nat>>): (r: seq<seq<nat>>)
    ensures |r| == |nb|
    ensures forall i :: 0 <= i < |nb| ==> r[i] == CopyList(nb[i], i, |nb|)
  {
    seq(|nb|, i requires 0 <= i < |nb| => CopyList(nb[i], i, |nb|))
  }

  /** Every node of a copied list is one the original names, and back,
      when the original starts with its self-link and names nodes below
      `n` only. */
  lemma CopyListSameNodes(l: seq<nat>, i: nat, n: nat)
    requires |l| >= 1 && l[0] == i && i < n
    requires forall x :: x in l ==> x < n
    ensures forall x :: x in CopyList(l, i, n) <==> x in l
  {
  }

  /** Replacing the neighbour lists by ones of the same shape, emptying the
      worklist and zeroing the step counter keeps the invariant. */
  lemma NewNeighborsKeepInv(s: GraphState, nb: seq<seq<nat>>)
    requires Inv(s) && |nb| == |s.count|
    requires forall v :: 0 <= v < |nb| ==> |nb[v]| >= 1 && nb[v][0] == v
    requires forall v, k :: 0 <= v < |nb| && 0 <= k < |nb[v]| ==> nb[v][k] < |nb|
    ensures Inv(s.(neighbors := nb, toProcess := [], overflow := 0))
  {
  }

  /** The graph `duplicate` returns, apart from its `prev` link: the same
      tokens, owners, tallies and turn, the neighbour lists rebuilt in the
      form `CopyList` gives, an empty worklist and a step counter of zero. */
  function Duplicated(s: GraphState): (r: GraphState)
    ensures r.count == s.count && r.player == s.player && r.playerCounts == s.playerCounts
    ensures r.players == s.players && r.currIndex == s.currIndex && r.currPlayer == s.currPlayer
    ensures r.toProcess == [] && r.overflow == 0
    ensures |r.neighbors| == |s.neighbors|
  {
    s.(neighbors := CopyNeighbors(s.neighbors), toProcess := [], overflow := 0)
  }

  /** The copy of a valid board is valid, and every node keeps the same
      neighbours, with its self-link first. */
  lemma DuplicatedKeepsInv(s: GraphState)
    requires Inv(s)
    ensures Inv(Duplicated(s))
    ensures forall i, x :: 0 <= i < |s.count| ==>
      (x in Duplicated(s).neighbors[i] <==> x in s.neighbors[i])
    ensures forall i :: 0 <= i < |s.count| ==> Duplicated(s).neighbors[i][0] == i
  {
    var n := |s.count|;
    var nb := CopyNeighbors(s.neighbors);
    forall i | 0 <= i < n
      ensures forall x :: x in nb[i] <==> x in s.neighbors[i]
      ensures forall k :: 0 <= k < |nb[i]| ==> nb[i][k] < n
    {
      assert s.neighbors[i][0] == i;
      CopyListSameNodes(s.neighbors[i], i, n);
      assert forall k :: 0 <= k < |nb[i]| ==> nb[i][k] in nb[i];
    }
    NewNeighborsKeepInv(s, nb);
  }

  /** The set of nodes a list names. */
  function Elems(l: seq<nat>): (r: set<nat>)
    ensures forall x :: x in r <==> x in l
  {
    if l == [] then {} else {l[0]} + Elems(l[1..])
  }

  lemma {:induction false} NoDupCard(l: seq<nat>)
    requires NoDup(l)
    ensures |Elems(l)| == |l|
  {
    if l != [] {
      var rest := l[1..];
      assert NoDup(rest);
      NoDupCard(rest);
      assert l[0] !in rest;
    }
  }

  /** A copied list never repeats a node. */
  lemma CopyListNoDup(l: seq<nat>, i: nat, n: nat)
    ensures NoDup(CopyList(l, i, n))
  {
    var o := Others(l, i, n);
    assert i !in o;
    forall a, b | 0 <= a < b < |o| + 1 ensures CopyList(l, i, n)[a] != CopyList(l, i, n)[b] {
      if a > 0 { assert o[a - 1] < o[b - 1]; } else { assert o[b - 1] in o; }
    }
  }

  /** The copy keeps every node's degree, and so its firing threshold, when
      the original list names no node twice (as every board builder
      produces). */
  lemma DuplicateKeepsDegree(s: GraphState, i: nat)
    requires Inv(s) && i < |s.count| && NoDup(s.neighbors[i])
    ensures |Duplicated(s).neighbors[i]| == |s.neighbors[i]|
  {
    var l := s.neighbors[i];
    assert forall k :: 0 <= k < |l| ==> l[k] < |s.count|;
    CopyListKeepsLength(l, i, |s.count|);
  }

  lemma CopyListKeepsLength(l: seq<nat>, i: nat, n: nat)
    requires |l| >= 1 && l[0] == i && i < n && NoDup(l)
    requires forall k :: 0 <= k < |l| ==> l[k] < n
    ensures |CopyList(l, i, n)| == |l|
  {
    var c := CopyList(l, i, n);
    CopyListNoDup(l, i, n);
    CopyListSameNodes(l, i, n);
    NoDupCard(c);
    NoDupCard(l);
    assert Elems(c) == Elems(l);
  }

  /** A copied list is determined by the set of nodes it names. */
  lemma {:induction false} OthersBySet(l: seq<nat>, l': seq<nat>, i: nat, n: nat)
    requires forall x :: x in l <==> x in l'
    ensures Others(l, i, n) == Others(l', i, n)
  {
    if n > 0 { OthersBySet(l, l', i, n - 1); }
  }

  /** Duplicating a duplicate gives the same board again: the copy's
      neighbour lists are already in the form `duplicate` produces. */
  lemma DuplicateIdempotent(s: GraphState)
    requires Inv(s)
    ensures Duplicated(Duplicated(s)) == Duplicated(s)
  {
    var d := Duplicated(s);
    var n := |s.count|;
    DuplicatedKeepsInv(s);
    forall i | 0 <= i < n ensures CopyList(d.neighbors[i], i, n) == d.neighbors[i] {
      OthersBySet(d.neighbors[i], s.neighbors[i], i, n);
    }
    assert CopyNeighbors(d.neighbors) == d.neighbors;
  }
}
