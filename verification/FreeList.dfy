/** The intrusive circular doubly linked list of lib/mylib/list/list.h, over a
    memory indexed by byte address. A node at address n keeps `prev` at n and
    `next` at n + p, where p is the width of a pointer. */
module FreeList {

  type Mem = seq<int>

  ghost predicate NodeFits(m: Mem, p: int, n: int) {
    0 <= n && 0 < p && n + p < |m|
  }

  /** The walk around the list: the head, every node in order, the head again. */
  ghost function Cycle(head: int, nodes: seq<int>): seq<int> {
    [head] + nodes + [head]
  }

  /** Positions i and i + 1 of a walk point at each other. */
  ghost predicate Link(m: Mem, p: int, c: seq<int>, i: int)
    requires 0 <= i && i + 1 < |c|
  {
    && NodeFits(m, p, c[i]) && NodeFits(m, p, c[i + 1])
    && m[c[i] + p] == c[i + 1] && m[c[i + 1]] == c[i]
  }

  /** The first n links of a walk hold. */
  ghost predicate Chained(m: Mem, p: int, c: seq<int>, n: nat)
    requires n < |c|
  {
    n > 0 ==> Link(m, p, c, n - 1) && Chained(m, p, c, n - 1)
  }

  ghost predicate FoldedLinks(m: Mem, p: int, head: int, nodes: seq<int>, n: nat) {
    if n == 0 then Chained(m, p, Cycle(head, nodes), |nodes| + 1) else FoldedLinks(m, p, head, nodes, n - 1)
  }

  /** Neighbours on the walk point at each other. The definition is folded so
      that the verifier looks inside only where `LinksUnfold` is called. */
  ghost predicate Linked(m: Mem, p: int, head: int, nodes: seq<int>) {
    FoldedLinks(m, p, head, nodes, |m| + 4)
  }

  lemma {:induction false} LinksUnfold(m: Mem, p: int, head: int, nodes: seq<int>, n: nat)
    ensures FoldedLinks(m, p, head, nodes, n) <==> Chained(m, p, Cycle(head, nodes), |nodes| + 1)
  {
    if n > 0 { LinksUnfold(m, p, head, nodes, n - 1); }
  }

  lemma {:induction false} ChainedStep(m: Mem, p: int, c: seq<int>, n: nat, i: nat)
    requires n < |c| && i < n && Chained(m, p, c, n)
    ensures Link(m, p, c, i)
  {
    if i < n - 1 { ChainedStep(m, p, c, n - 1, i); }
  }

  lemma {:induction false} ChainedIntro(m: Mem, p: int, c: seq<int>, n: nat)
    requires n < |c| && forall i :: 0 <= i < n ==> Link(m, p, c, i)
    ensures Chained(m, p, c, n)
  {
    if n > 0 { ChainedIntro(m, p, c, n - 1); }
  }

  /** One step of the walk. */
  lemma WalkLinks(m: Mem, p: int, head: int, nodes: seq<int>, i: int)
    requires Linked(m, p, head, nodes) && 0 <= i <= |nodes|
    ensures Link(m, p, Cycle(head, nodes), i)
    ensures i < |nodes| ==> Cycle(head, nodes)[i + 1] == nodes[i]
  {
    LinksUnfold(m, p, head, nodes, |m| + 4);
    ChainedStep(m, p, Cycle(head, nodes), |nodes| + 1, i);
  }

  lemma LinkedIntro(m: Mem, p: int, head: int, nodes: seq<int>)
    requires forall i :: 0 <= i <= |nodes| ==> Link(m, p, Cycle(head, nodes), i)
    ensures Linked(m, p, head, nodes)
  {
    ChainedIntro(m, p, Cycle(head, nodes), |nodes| + 1);
    LinksUnfold(m, p, head, nodes, |m| + 4);
  }

  /** Every node, and the head, can be reached. */
  lemma LinkedFits(m: Mem, p: int, head: int, nodes: seq<int>)
    requires Linked(m, p, head, nodes)
    ensures NodeFits(m, p, head) && forall i :: 0 <= i < |nodes| ==> NodeFits(m, p, nodes[i])
  {
    WalkLinks(m, p, head, nodes, 0);
    forall i | 0 <= i < |nodes|
      ensures NodeFits(m, p, nodes[i])
    {
      WalkLinks(m, p, head, nodes, i);
    }
  }

  /** The two link cells of node n do not overlap those of node k. */
  ghost predicate Apart(p: int, n: int, k: int) {
    n + 2 * p <= k || k + 2 * p <= n
  }

  /** No two nodes of the list, head included, overlap. */
  ghost predicate Spaced(p: int, head: int, nodes: seq<int>) {
    && 0 < p
    && (forall i :: 0 <= i < |nodes| ==> Apart(p, head, nodes[i]))
    && (forall i, j :: 0 <= i < j < |nodes| ==> Apart(p, nodes[i], nodes[j]))
  }

  /** Address x is a link cell of the head or of a node. */
  ghost predicate LinkCell(p: int, head: int, nodes: seq<int>, x: int) {
    || x == head || x == head + p
    || exists i :: 0 <= i < |nodes| && (x == nodes[i] || x == nodes[i] + p)
  }

  /** `list_init` */
  function ListInit(m: Mem, p: int, head: int): Mem
    requires NodeFits(m, p, head)
  {
    m[head + p := head][head := head]
  }

  /** `__list_add` */
  function ListAddBetween(m: Mem, p: int, n: int, prev: int, next: int): (r: Mem)
    requires NodeFits(m, p, n) && NodeFits(m, p, prev) && NodeFits(m, p, next)
    ensures |r| == |m|
  {
    m[n + p := next][n := prev][prev + p := n][next := n]
  }

  /** `list_add`: insert right after the head. */
  function ListAdd(m: Mem, p: int, n: int, head: int): (r: Mem)
    requires NodeFits(m, p, n) && NodeFits(m, p, head) && NodeFits(m, p, m[head + p])
    ensures |r| == |m|
  {
    ListAddBetween(m, p, n, head, m[head + p])
  }

  /** `list_del`: join the neighbours, then clear the two links of the node. */
  function ListDel(m: Mem, p: int, n: int): (r: Mem)
    requires NodeFits(m, p, n) && NodeFits(m, p, m[n]) && NodeFits(m, p, m[n + p])
    ensures |r| == |m|
  {
    var prev, next := m[n], m[n + p];
    m[prev + p := next][next := prev][n + p := 0][n := 0]
  }

  lemma InitLinks(m: Mem, p: int, head: int)
    requires NodeFits(m, p, head)
    ensures Linked(ListInit(m, p, head), p, head, [])
  {
    assert Cycle(head, []) == [head, head];
    LinkedIntro(ListInit(m, p, head), p, head, []);
  }

  /** Where the list starts. */
  lemma FirstNode(m: Mem, p: int, head: int, nodes: seq<int>)
    requires Linked(m, p, head, nodes)
    ensures NodeFits(m, p, head) && NodeFits(m, p, m[head + p])
    ensures m[head + p] == if nodes == [] then head else nodes[0]
  {
    WalkLinks(m, p, head, nodes, 0);
  }

  /** What follows, and what precedes, the k-th node. */
  lemma Neighbours(m: Mem, p: int, head: int, nodes: seq<int>, k: int)
    requires Linked(m, p, head, nodes) && 0 <= k < |nodes|
    ensures NodeFits(m, p, nodes[k]) && NodeFits(m, p, m[nodes[k]]) && NodeFits(m, p, m[nodes[k] + p])
    ensures m[nodes[k] + p] == if k + 1 == |nodes| then head else nodes[k + 1]
    ensures m[nodes[k]] == if k == 0 then head else nodes[k - 1]
  {
    WalkLinks(m, p, head, nodes, k);
    WalkLinks(m, p, head, nodes, k + 1);
  }

  /** Linking depends on the link cells alone. */
  lemma LinkedFrame(m: Mem, m': Mem, p: int, head: int, nodes: seq<int>)
    requires Linked(m, p, head, nodes) && |m'| == |m|
    requires forall x :: 0 <= x < |m| && LinkCell(p, head, nodes, x) ==> m'[x] == m[x]
    ensures Linked(m', p, head, nodes)
  {
    var c := Cycle(head, nodes);
    LinkedFits(m, p, head, nodes);
    forall i | 0 <= i <= |nodes|
      ensures Link(m', p, c, i)
    {
      WalkLinks(m, p, head, nodes, i);
      CycleCell(p, head, nodes, i);
      CycleCell(p, head, nodes, i + 1);
    }
    LinkedIntro(m', p, head, nodes);
  }

  lemma CycleCell(p: int, head: int, nodes: seq<int>, i: int)
    requires 0 <= i <= |nodes| + 1
    ensures var c := Cycle(head, nodes); LinkCell(p, head, nodes, c[i]) && LinkCell(p, head, nodes, c[i] + p)
  {
    assert 1 <= i <= |nodes| ==> Cycle(head, nodes)[i] == nodes[i - 1];
  }

  /** Reading `next` of a and `prev` of b after node n goes between prev and next. */
  lemma AddReads(m: Mem, p: int, n: int, prev: int, next: int, a: int, b: int)
    requires NodeFits(m, p, n) && NodeFits(m, p, prev) && NodeFits(m, p, next) && NodeFits(m, p, a) && NodeFits(m, p, b)
    requires Apart(p, n, prev) && Apart(p, n, next) && (prev == next || Apart(p, prev, next))
    requires a == n || Apart(p, a, n)
    requires b == n || Apart(p, b, n)
    requires a == prev || Apart(p, a, prev)
    requires a == next || Apart(p, a, next)
    requires b == prev || Apart(p, b, prev)
    requires b == next || Apart(p, b, next)
    ensures var m' := ListAddBetween(m, p, n, prev, next);
      && m'[a + p] == (if a == n then next else if a == prev then n else m[a + p])
      && m'[b] == if b == n then prev else if b == next then n else m[b]
  {
  }

  /** `list_add` puts the new node first and touches only link cells. */
  lemma AddLinks(m: Mem, p: int, head: int, nodes: seq<int>, n: int)
    requires Linked(m, p, head, nodes) && Spaced(p, head, [n] + nodes) && NodeFits(m, p, n)
    ensures NodeFits(m, p, head) && NodeFits(m, p, m[head + p])
    ensures Linked(ListAdd(m, p, n, head), p, head, [n] + nodes)
    ensures var m' := ListAdd(m, p, n, head);
      forall x {:trigger m'[x]} :: 0 <= x < |m'| && !LinkCell(p, head, [n] + nodes, x) ==> m'[x] == m[x]
  {
    FirstNode(m, p, head, nodes);
    var next := m[head + p];
    var m' := ListAdd(m, p, n, head);
    var all := [n] + nodes;
    var c' := Cycle(head, all);
    forall i | 0 <= i <= |all|
      ensures Link(m', p, c', i)
    {
      AddStep(m, p, head, nodes, n, i);
    }
    LinkedIntro(m', p, head, all);
    forall x | 0 <= x < |m'| && !LinkCell(p, head, all, x)
      ensures m'[x] == m[x]
    {
      assert x != all[0] && x != all[0] + p;
      assert nodes != [] ==> x != all[1];
    }
  }

  /** One step of the lengthened walk. */
  lemma AddStep(m: Mem, p: int, head: int, nodes: seq<int>, n: int, i: int)
    requires Linked(m, p, head, nodes) && Spaced(p, head, [n] + nodes) && NodeFits(m, p, n)
    requires NodeFits(m, p, head) && NodeFits(m, p, m[head + p]) && 0 <= i <= |nodes| + 1
    ensures Link(ListAdd(m, p, n, head), p, Cycle(head, [n] + nodes), i)
  {
    var all := [n] + nodes;
    var c := Cycle(head, all);
    FirstNode(m, p, head, nodes);
    assert m[head + p] == c[2];
    if i >= 2 {
      WalkLinks(m, p, head, nodes, i - 1);
      assert c[i] == Cycle(head, nodes)[i - 1] && c[i + 1] == Cycle(head, nodes)[i];
    }
    CycleApart(p, head, all, 0, 1);
    CycleApart(p, head, all, 1, 2);
    CycleApart(p, head, all, 0, 2);
    AddPoint(p, head, all, i);
    AddPoint(p, head, all, i + 1);
    AddReads(m, p, n, head, m[head + p], c[i], c[i + 1]);
  }

  /** A position of the walk against the first three positions. */
  lemma AddPoint(p: int, head: int, all: seq<int>, x: int)
    requires Spaced(p, head, all) && 0 < |all| && 0 <= x <= |all| + 1
    ensures var c := Cycle(head, all);
      && (if x == 0 || x == |all| + 1 then c[x] == c[0] else Apart(p, c[x], c[0]))
      && (if x == 1 then c[x] == c[1] else Apart(p, c[x], c[1]))
      && (if x == 2 || (x == 0 && |all| == 1) then c[x] == c[2] else Apart(p, c[x], c[2]))
  {
    CycleApart(p, head, all, x, 0);
    CycleApart(p, head, all, x, 1);
    CycleApart(p, head, all, x, 2);
  }

  ghost function Without(nodes: seq<int>, k: int): seq<int>
    requires 0 <= k < |nodes|
  {
    nodes[..k] + nodes[k + 1..]
  }

  /** `list_del` of the k-th node leaves the others in order and touches only
      link cells. */
  lemma DelLinks(m: Mem, p: int, head: int, nodes: seq<int>, k: int)
    requires Linked(m, p, head, nodes) && Spaced(p, head, nodes) && 0 <= k < |nodes|
    ensures NodeFits(m, p, nodes[k]) && NodeFits(m, p, m[nodes[k]]) && NodeFits(m, p, m[nodes[k] + p])
    ensures Linked(ListDel(m, p, nodes[k]), p, head, Without(nodes, k))
    ensures var m' := ListDel(m, p, nodes[k]);
      forall x {:trigger m'[x]} :: 0 <= x < |m'| && !LinkCell(p, head, nodes, x) ==> m'[x] == m[x]
  {
    Neighbours(m, p, head, nodes, k);
    var n := nodes[k];
    var m' := ListDel(m, p, n);
    var rest := Without(nodes, k);
    var c, c' := Cycle(head, nodes), Cycle(head, rest);
    forall i | 0 <= i <= |rest|
      ensures Link(m', p, c', i)
    {
      var a := if i <= k then i else i + 1;
      var b := if i + 1 <= k then i + 1 else i + 2;
      assert c'[i] == c[a] && c'[i + 1] == c[b];
      DelStep(m, p, head, nodes, k, a, b);
    }
    LinkedIntro(m', p, head, rest);
    DelFrame(m, p, head, nodes, k);
  }

  lemma DelFrame(m: Mem, p: int, head: int, nodes: seq<int>, k: int)
    requires Linked(m, p, head, nodes) && 0 <= k < |nodes|
    ensures NodeFits(m, p, nodes[k]) && NodeFits(m, p, m[nodes[k]]) && NodeFits(m, p, m[nodes[k] + p])
    ensures var m' := ListDel(m, p, nodes[k]);
      forall x {:trigger m'[x]} :: 0 <= x < |m'| && !LinkCell(p, head, nodes, x) ==> m'[x] == m[x]
  {
    Neighbours(m, p, head, nodes, k);
    var m' := ListDel(m, p, nodes[k]);
    forall x | 0 <= x < |m'| && !LinkCell(p, head, nodes, x)
      ensures m'[x] == m[x]
    {
      assert x != nodes[k] && x != nodes[k] + p;
      assert k > 0 ==> x != nodes[k - 1] + p;
      assert k + 1 < |nodes| ==> x != nodes[k + 1];
    }
  }

  /** Reading `next` of a and `prev` of b after node n is deleted. */
  lemma DelReads(m: Mem, p: int, n: int, a: int, b: int)
    requires NodeFits(m, p, n) && NodeFits(m, p, m[n]) && NodeFits(m, p, m[n + p])
    requires NodeFits(m, p, a) && NodeFits(m, p, b)
    requires Apart(p, a, n) && Apart(p, b, n)
    requires a == m[n] || Apart(p, a, m[n])
    requires a == m[n + p] || Apart(p, a, m[n + p])
    requires b == m[n] || Apart(p, b, m[n])
    requires b == m[n + p] || Apart(p, b, m[n + p])
    ensures var m' := ListDel(m, p, n);
      && m'[a + p] == (if a == m[n] then m[n + p] else m[a + p])
      && m'[b] == if b == m[n + p] then m[n] else m[b]
  {
  }

  /** A surviving position of the walk against the deleted node and its two
      neighbours. */
  lemma WalkPoint(m: Mem, p: int, head: int, nodes: seq<int>, k: int, x: int)
    requires Linked(m, p, head, nodes) && Spaced(p, head, nodes) && 0 <= k < |nodes|
    requires 0 <= x <= |nodes| + 1 && x != k + 1
    ensures var c := Cycle(head, nodes);
      && NodeFits(m, p, c[x])
      && Apart(p, c[x], c[k + 1])
      && (c[x] == c[k] || Apart(p, c[x], c[k]))
      && (c[x] == c[k + 2] || Apart(p, c[x], c[k + 2]))
      && (c[x] == c[k] ==> x == k || (x == |nodes| + 1 && k == 0))
      && (c[x] == c[k + 2] ==> x == k + 2 || (x == 0 && k + 2 == |nodes| + 1))
  {
    WalkLinks(m, p, head, nodes, if x == 0 then 0 else x - 1);
    CycleApart(p, head, nodes, x, k + 1);
    CycleApart(p, head, nodes, x, k);
    CycleApart(p, head, nodes, x, k + 2);
  }

  /** One step of the shortened walk, in positions of the old walk. */
  lemma DelStep(m: Mem, p: int, head: int, nodes: seq<int>, k: int, a: int, b: int)
    requires Linked(m, p, head, nodes) && Spaced(p, head, nodes) && 0 <= k < |nodes|
    requires 0 <= a < b <= |nodes| + 1 && a != k + 1 && b != k + 1
    requires b == a + 1 || (a == k && b == k + 2)
    requires NodeFits(m, p, nodes[k]) && NodeFits(m, p, m[nodes[k]]) && NodeFits(m, p, m[nodes[k] + p])
    ensures var c := Cycle(head, nodes); var m' := ListDel(m, p, nodes[k]);
      NodeFits(m', p, c[a]) && NodeFits(m', p, c[b]) && m'[c[a] + p] == c[b] && m'[c[b]] == c[a]
  {
    var c := Cycle(head, nodes);
    WalkPoint(m, p, head, nodes, k, a);
    WalkPoint(m, p, head, nodes, k, b);
    WalkLinks(m, p, head, nodes, k);
    WalkLinks(m, p, head, nodes, a);
    WalkLinks(m, p, head, nodes, b - 1);
    WalkLinks(m, p, head, nodes, k + 1);
    DelReads(m, p, nodes[k], c[a], c[b]);
  }

  /** Positions of the walk hold the same node or nodes that do not overlap. */
  lemma CycleApart(p: int, head: int, nodes: seq<int>, i: int, j: int)
    requires Spaced(p, head, nodes) && 0 <= i <= |nodes| + 1 && 0 <= j <= |nodes| + 1
    ensures var c := Cycle(head, nodes);
      if i == j || (i == 0 && j == |nodes| + 1) || (j == 0 && i == |nodes| + 1) then c[i] == c[j]
      else Apart(p, c[i], c[j])
  {
    var c := Cycle(head, nodes);
    assert 1 <= i <= |nodes| ==> c[i] == nodes[i - 1];
    assert 1 <= j <= |nodes| ==> c[j] == nodes[j - 1];
  }
}
