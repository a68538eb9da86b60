/** Finding a subnode by name: what fdt_subnode_offset_namelen finds in the tree
    that a blob reads as. */
module FdtSearch {
  import opened Bytes
  import opened FdtTags
  import opened FdtStream
  import opened FdtWalk
  import opened FdtEdit
  import opened FdtTrees
  import opened FdtLookup

  // ------------------------------------------------------------- on tokens

  /** The search from token j with depth d: the index of the node, or -1. */
  function SubScan(toks: seq<Token>, j: int, d: int, name: seq<byte>): (e: int)
    requires 0 <= j <= |toks|
    ensures e == -1 || (j <= e < |toks| && toks[e].Begin?)
    decreases |toks| - j
  {
    if j == |toks| then -1
    else if toks[j].Begin? then if d == 0 && NameMatches(toks[j].name, name) then j
      else SubScan(toks, j + 1, d + 1, name)
    else if toks[j].EndNode? then if d == 0 then -1 else SubScan(toks, j + 1, d - 1, name)
    else SubScan(toks, j + 1, d, name)
  }

  lemma {:induction false} ScanSub(toks: seq<Token>, j: int, d: int, name: seq<byte>)
    requires 0 <= j <= |toks| && d >= 0
    ensures var s := Scan(toks, j, d);
      && (!s.AtNode? ==> SubScan(toks, j, d, name) == -1)
      && (s.LeftAt? ==> s.depth < 0)
      && (s.AtNode? ==> s.depth >= 1 && SubScan(toks, j, d, name) == SubHere(toks, s.index, s.depth, name))
    decreases |toks| - j
  {
    if j < |toks| {
      if toks[j].EndNode? {
        if d > 0 { ScanSub(toks, j + 1, d - 1, name); }
      } else if !toks[j].Begin? {
        ScanSub(toks, j + 1, d, name);
      }
    }
  }

  /** At node j, which is at depth d. */
  function SubHere(toks: seq<Token>, j: int, d: int, name: seq<byte>): int
    requires 0 <= j < |toks| && toks[j].Begin?
  {
    if d == 1 && NameMatches(toks[j].name, name) then j else SubScan(toks, j + 1, d, name)
  }

  function SubOffset(toks: seq<Token>, e: int): int
    requires -1 <= e < |toks|
  {
    if e < 0 then -ERR_NOTFOUND else Off(toks, e)
  }

  lemma SubnodeStep(b: Block, offset: int, d: int, name: seq<byte>, o: int, e: int)
    requires offset >= 0 && d >= 0 && NextNode(b, offset, d) == (o, e)
    ensures Subnode(b, offset, d, name) ==
            if d == 1 && NodeNamed(b, offset, name) then offset else if e < 0 then -ERR_NOTFOUND else if o < 0 then o
              else Subnode(b, o, e, name)
  {
  }

  lemma NamedAt(b: Block, toks: seq<Token>, i: int, name: seq<byte>)
    requires Run(b, toks) && 0 <= i < |toks| && toks[i].Begin?
    ensures Off(toks, i) >= 0 && (NodeNamed(b, Off(toks, i), name) <==> NameMatches(toks[i].name, name))
  {
    RunAt(b, toks, i);
    OffGrows(toks, i, i + 1);
  }

  lemma {:induction false} SubnodeFrom(b: Block, toks: seq<Token>, i: int, d: int, name: seq<byte>)
    requires Run(b, toks) && 0 <= i < |toks| && toks[i].Begin? && d >= 0
    ensures Subnode(b, Off(toks, i), d, name) == SubOffset(toks, SubHere(toks, i, d, name))
    decreases |toks| - i
  {
    var s := Scan(toks, i + 1, d);
    NextNodeScans(b, toks, i, d);
    NamedAt(b, toks, i, name);
    SubnodeStep(b, Off(toks, i), d, name, StopOffset(toks, s), s.depth);
    ScanSub(toks, i + 1, d, name);
    if s.AtNode? {
      SubnodeFrom(b, toks, s.index, s.depth, name);
    }
  }

  // ------------------------------------------------------------ on entries

  /** The same search over calls: how many come before the node, or -1. */
  function SubEnt(es: seq<Entry>, d: int, name: seq<byte>): (r: int)
    ensures -1 <= r < |es| || (r == -1 && es == [])
  {
    if es == [] then -1
    else if es[0].Open? then
      if d == 0 && NameMatches(es[0].name, name) then 0 else Plus(1, SubEnt(es[1..], d + 1, name))
    else if es[0].Close? then if d == 0 then -1 else Plus(1, SubEnt(es[1..], d - 1, name))
    else Plus(1, SubEnt(es[1..], d, name))
  }

  lemma SubCons(e: Entry, es: seq<Entry>, d: int, name: seq<byte>)
    ensures SubEnt([e] + es, d, name) ==
            if d == 0 && e.Open? && NameMatches(e.name, name) then 0
            else if d == 0 && e.Close? then -1
            else Plus(1, SubEnt(es, d + Nest(e), name))
  {
    assert ([e] + es)[1..] == es;
  }

  lemma {:induction false} SubProps(ps: seq<(seq<byte>, seq<byte>)>, rest: seq<Entry>, d: int, name: seq<byte>)
    ensures SubEnt(FlattenProps(ps) + rest, d, name) == Plus(|FlattenProps(ps)|, SubEnt(rest, d, name))
  {
    if ps == [] {
      assert FlattenProps(ps) + rest == rest;
    } else {
      var e := Property(ps[0].0, ps[0].1);
      assert FlattenProps(ps) + rest == [e] + (FlattenProps(ps[1..]) + rest);
      SubCons(e, FlattenProps(ps[1..]) + rest, d, name);
      SubProps(ps[1..], rest, d, name);
    }
  }

  /** Nothing below the children is looked at. */
  lemma {:induction false} SubDeep(ts: seq<Tree>, rest: seq<Entry>, d: int, name: seq<byte>)
    requires d >= 1
    ensures SubEnt(FlattenAll(ts) + rest, d, name) == Plus(|FlattenAll(ts)|, SubEnt(rest, d, name))
    decreases ts, 0
  {
    if ts == [] {
      assert FlattenAll(ts) + rest == rest;
    } else {
      assert FlattenAll(ts) + rest == Flatten(ts[0]) + (FlattenAll(ts[1..]) + rest);
      SubPast(ts[0], FlattenAll(ts[1..]) + rest, d, name);
      SubDeep(ts[1..], rest, d, name);
    }
  }

  /** A node that does not match, or is too deep to, is passed over. */
  lemma {:induction false} SubPast(t: Tree, rest: seq<Entry>, d: int, name: seq<byte>)
    requires d >= 1 || (d == 0 && !NameMatches(t.name, name))
    ensures SubEnt(Flatten(t) + rest, d, name) == Plus(|Flatten(t)|, SubEnt(rest, d, name))
    decreases t, 1
  {
    TreeShape(t, rest);
    var kids := FlattenAll(t.children) + ([Close] + rest);
    SubCons(Open(t.name), FlattenProps(t.props) + kids, d, name);
    SubProps(t.props, kids, d + 1, name);
    SubDeep(t.children, [Close] + rest, d + 1, name);
    SubCons(Close, rest, d + 1, name);
  }

  /** The first child that matches, -1 if none does. */
  function FirstMatch(ts: seq<Tree>, name: seq<byte>): (k: int)
    ensures -1 <= k < |ts|
  {
    if ts == [] then -1 else if NameMatches(ts[0].name, name) then 0 else Plus(1, FirstMatch(ts[1..], name))
  }

  lemma {:induction false} SubKids(ts: seq<Tree>, rest: seq<Entry>, name: seq<byte>)
    ensures var k := FirstMatch(ts, name);
      SubEnt(FlattenAll(ts) + ([Close] + rest), 0, name) == if k < 0 then -1 else |FlattenAll(ts[..k])|
    decreases ts
  {
    var tail := [Close] + rest;
    if ts == [] {
      assert FlattenAll(ts) + tail == tail;
      SubCons(Close, rest, 0, name);
    } else if NameMatches(ts[0].name, name) {
      assert FlattenAll(ts) + tail == Flatten(ts[0]) + (FlattenAll(ts[1..]) + tail);
      TreeShape(ts[0], FlattenAll(ts[1..]) + tail);
      assert ts[..0] == [];
    } else {
      var k := FirstMatch(ts[1..], name);
      assert FlattenAll(ts) + tail == Flatten(ts[0]) + (FlattenAll(ts[1..]) + tail);
      SubPast(ts[0], FlattenAll(ts[1..]) + tail, 0, name);
      SubKids(ts[1..], rest, name);
      if k >= 0 {
        assert ts[..k + 1][0] == ts[0] && ts[..k + 1][1..] == ts[1..][..k];
      }
    }
  }

  // ----------------------------------------------------- tokens and entries

  ghost predicate SubLocated(s: seq<byte>, toks: seq<Token>, j: int, es: seq<Entry>, e: int, r: int)
    requires -1 <= r <= |es|
  {
    if r < 0 then e < 0 else e >= 0 && Piece(s, toks, j, e, es[..r])
  }

  lemma SubLater(s: seq<byte>, toks: seq<Token>, j: int, y: seq<Entry>, tail: seq<Entry>, e: int, r: int)
    requires 0 <= j < |toks| && ReadOne(s, toks[j]) == Read(y) && -1 <= r <= |tail|
    requires SubLocated(s, toks, j + 1, tail, e, r)
    ensures SubLocated(s, toks, j, y + tail, e, Plus(|y|, r))
  {
    if r >= 0 {
      PieceCons(s, toks, j, e, y, tail[..r]);
      assert (y + tail)[..|y| + r] == y + tail[..r];
    }
  }

  lemma {:induction false} SubSim(s: seq<byte>, toks: seq<Token>, j: int, d: int, es: seq<Entry>, name: seq<byte>)
    requires 0 <= j <= |toks| && Piece(s, toks, j, |toks|, es)
    ensures SubLocated(s, toks, j, es, SubScan(toks, j, d, name), SubEnt(es, d, name))
    decreases |toks| - j
  {
    if j == |toks| {
      PieceTail(s, toks, j, es);
    } else {
      var y, tail := PieceFirst(s, toks, j, es);
      if toks[j].Begin? || toks[j].EndNode? || toks[j].Prop? {
        SubCons(y[0], tail, d, name);
        assert es == [y[0]] + tail;
        if d == 0 && toks[j].Begin? && NameMatches(toks[j].name, name) {
          PieceNil(s, toks, j);
          assert es[..0] == [];
        } else if !(d == 0 && toks[j].EndNode?) {
          SubSim(s, toks, j + 1, d + Nest(y[0]), tail, name);
          SubLater(s, toks, j, y, tail, SubScan(toks, j + 1, d + Nest(y[0]), name), SubEnt(tail, d + Nest(y[0]), name));
        }
      } else {
        assert y + tail == tail;
        SubSim(s, toks, j + 1, d, tail, name);
        SubLater(s, toks, j, y, tail, SubScan(toks, j + 1, d, name), SubEnt(tail, d, name));
      }
    }
  }

  // --------------------------------------------------------------- on trees

  /** One step further down. */
  lemma {:induction false} StepDown(t: Tree, p: Path, k: nat)
    requires ValidPath(t, p) && k < |SubAt(t, p).children|
    ensures ValidPath(t, p + [k]) && SubAt(t, p + [k]) == SubAt(t, p).children[k]
    ensures var u := SubAt(t, p);
      Before(t, p + [k]) == Before(t, p) + ([Open(u.name)] + FlattenProps(u.props) + FlattenAll(u.children[..k]))
    decreases |p|
  {
    var q := p + [k];
    if p == [] {
      assert q[0] == k && q[1..] == [];
    } else {
      assert q[0] == p[0] && q[1..] == p[1..] + [k];
      StepDown(t.children[p[0]], p[1..], k);
    }
  }

  lemma FirstMatchOpens(ts: seq<Tree>, rest: seq<Entry>, k: int)
    requires 0 <= k < |ts|
    ensures |FlattenAll(ts[..k])| < |FlattenAll(ts) + rest|
    ensures (FlattenAll(ts) + rest)[..|FlattenAll(ts[..k])|] == FlattenAll(ts[..k])
  {
    FlattenAt(ts, k);
  }

  lemma BodyUpTo(u: Tree, after: seq<Entry>, k: int)
    requires 0 <= k < |u.children|
    ensures var r := |FlattenProps(u.props)| + |FlattenAll(u.children[..k])|;
      var body := FlattenProps(u.props) + Rest(u, after);
      r < |body| && body[..r] == FlattenProps(u.props) + FlattenAll(u.children[..k])
  {
    FirstMatchOpens(u.children, [Close] + after, k);
  }

  /** The tokens in front of child k. */
  lemma ChildAt(s: seq<byte>, toks: seq<Token>, i: int, t: Tree, p: Path, k: nat, e: int)
    requires NodeAt(s, toks, i, t, p) && k < |SubAt(t, p).children| && i < e < |toks| && toks[e].Begin?
    requires Piece(s, toks, i + 1, e, FlattenProps(SubAt(t, p).props) + FlattenAll(SubAt(t, p).children[..k]))
    ensures NodeAt(s, toks, e, t, p + [k])
  {
    var u := SubAt(t, p);
    var x := FlattenProps(u.props) + FlattenAll(u.children[..k]);
    StepDown(t, p, k);
    NodeBody(s, toks, i, t, p);
    ReadUpTo(s, toks, i, t, p, e, x);
    Reassociate([Open(u.name)], FlattenProps(u.props), FlattenAll(u.children[..k]));
  }

  lemma BodySearch(u: Tree, after: seq<Entry>, name: seq<byte>)
    ensures var k := FirstMatch(u.children, name);
      SubEnt(FlattenProps(u.props) + Rest(u, after), 0, name) == if k < 0 then -1
        else |FlattenProps(u.props)| + |FlattenAll(u.children[..k])|
  {
    SubProps(u.props, Rest(u, after), 0, name);
    SubKids(u.children, after, name);
  }

  /** The search on tokens finds the first child whose name matches. */
  lemma SubScanTree(s: seq<byte>, toks: seq<Token>, i: int, t: Tree, p: Path, name: seq<byte>)
    requires NodeAt(s, toks, i, t, p)
    ensures var k, e := FirstMatch(SubAt(t, p).children, name), SubScan(toks, i + 1, 0, name);
      if k < 0 then e < 0 else 0 <= e < |toks| && NodeAt(s, toks, e, t, p + [k])
  {
    var u, after := SubAt(t, p), After(t, p);
    var body := FlattenProps(u.props) + Rest(u, after);
    var k, e := FirstMatch(u.children, name), SubScan(toks, i + 1, 0, name);
    NodeBody(s, toks, i, t, p);
    PieceTail(s, toks, i + 1, body);
    SubSim(s, toks, i + 1, 0, body, name);
    BodySearch(u, after, name);
    if k >= 0 {
      BodyUpTo(u, after, k);
      ChildAt(s, toks, i, t, p, k, e);
    }
  }

  /** fdt_subnode_offset at the node p: the first child whose name matches, or
      FDT_ERR_NOTFOUND when there is none. */
  lemma SubnodeTree(b: Block, s: seq<byte>, toks: seq<Token>, i: int, t: Tree, p: Path, name: seq<byte>)
    returns (e: int)
    requires Run(b, toks) && NodeAt(s, toks, i, t, p)
    ensures var k := FirstMatch(SubAt(t, p).children, name);
      if k < 0 then Subnode(b, Off(toks, i), 0, name) == -ERR_NOTFOUND
      else 0 <= e < |toks| && Subnode(b, Off(toks, i), 0, name) == Off(toks, e) && NodeAt(s, toks, e, t, p + [k])
  {
    SubnodeFrom(b, toks, i, 0, name);
    e := SubScan(toks, i + 1, 0, name);
    SubScanTree(s, toks, i, t, p, name);
  }

  // ------------------------------------------------------------- names

  /** What a name stands for: that node name, or with no unit address in it that
      name with any unit address. */
  ghost predicate Called(full: seq<byte>, name: seq<byte>) {
    full == name || (AT_SIGN !in name && exists u: seq<byte> :: full == name + [AT_SIGN] + u)
  }

  lemma MatchIsCalled(full: seq<byte>, name: seq<byte>)
    ensures NameMatches(full, name) <==> Called(full, name)
  {
    if NameMatches(full, name) && full != name {
      var u := full[|name| + 1..];
      assert full == full[..|name|] + [full[|name|]] + u;
    }
    if AT_SIGN !in name {
      forall u: seq<byte> | full == name + [AT_SIGN] + u
        ensures NameMatches(full, name)
      {
        assert full[..|name|] == name;
      }
    }
  }

  /** Child k is the first of that name, or k is -1 and there is none. */
  ghost predicate FirstCalled(ts: seq<Tree>, name: seq<byte>, k: int) {
    && -1 <= k < |ts| && (k >= 0 ==> Called(ts[k].name, name))
    && forall c :: 0 <= c < (if k < 0 then |ts| else k) ==> !Called(ts[c].name, name)
  }

  lemma {:induction false} MatchIsFirst(ts: seq<Tree>, name: seq<byte>)
    ensures FirstCalled(ts, name, FirstMatch(ts, name))
  {
    if ts != [] {
      MatchIsCalled(ts[0].name, name);
      if !NameMatches(ts[0].name, name) {
        MatchIsFirst(ts[1..], name);
        var k := FirstMatch(ts, name);
        forall c | 0 <= c < (if k < 0 then |ts| else k)
          ensures !Called(ts[c].name, name)
        {
          if c > 0 { assert ts[c] == ts[1..][c - 1]; }
        }
      }
    }
  }

  lemma FirstCalledOnce(ts: seq<Tree>, name: seq<byte>, k: int, m: int)
    requires FirstCalled(ts, name, k) && FirstCalled(ts, name, m)
    ensures k == m
  {
  }

  /** fdt_subnode_offset_namelen at the node p of a tree: the offset of the first
      child of that name, FDT_ERR_NOTFOUND if no child has it. */
  method FindSubnode(b: Block, parent: int, name: seq<byte>, ghost s: seq<byte>, ghost toks: seq<Token>, ghost i: int,
      ghost t: Tree, ghost p: Path)
    returns (offset: int, ghost k: int, ghost e: int)
    requires |b| < U32 && Run(b, toks) && NodeAt(s, toks, i, t, p) && parent == Off(toks, i)
    ensures FirstCalled(SubAt(t, p).children, name, k)
    ensures if k < 0 then offset == -ERR_NOTFOUND
            else 0 <= e < |toks| && offset == Off(toks, e) && NodeAt(s, toks, e, t, p + [k])
  {
    k := FirstMatch(SubAt(t, p).children, name);
    MatchIsFirst(SubAt(t, p).children, name);
    e := SubnodeTree(b, s, toks, i, t, p, name);
    offset := FdtSubnode(b, parent, name);
  }

  /** "memory" and "memory@80000000". */
  const MEMORY: seq<byte> := [109, 101, 109, 111, 114, 121]
  const MEMORY_AT: seq<byte> := MEMORY + [64, 56, 48, 48, 48, 48, 48, 48, 48]

  /** The short name finds the node with a unit address, another address does not. */
  lemma MemoryFound(ps: seq<(seq<byte>, seq<byte>)>, ks: seq<Tree>)
    ensures FirstMatch([Node(MEMORY_AT, ps, ks)], MEMORY) == 0
    ensures FirstMatch([Node(MEMORY_AT, ps, ks)], MEMORY + [64, 48]) == -1
  {
    assert MEMORY_AT[..6] == MEMORY && MEMORY_AT[6] == AT_SIGN;
    assert (MEMORY + [64, 48])[7] == 48 && MEMORY_AT[..8][7] == 56;
    assert [Node(MEMORY_AT, ps, ks)][1..] == [];
  }

  // ----------------------------------------------------------- descending

  /** fdt_path_offset_namelen on the components of a path (lines 278-297). */
  function Descend(b: Block, offset: int, names: seq<seq<byte>>): int
    decreases |names|
  {
    if names == [] then offset
    else
      var o := Subnode(b, offset, 0, names[0]);
      if o < 0 then o else Descend(b, o, names[1..])
  }

  /** The names on the way from u down to the node at q. */
  function NamesTo(u: Tree, q: Path): seq<seq<byte>>
    requires ValidPath(u, q)
    decreases |q|
  {
    if q == [] then [] else [u.children[q[0]].name] + NamesTo(u.children[q[0]], q[1..])
  }

  /** On the way no earlier sibling matches the name of the node. */
  predicate Unambiguous(u: Tree, q: Path)
    requires ValidPath(u, q)
    decreases |q|
  {
    q == [] || (FirstMatch(u.children, u.children[q[0]].name) == q[0] && Unambiguous(u.children[q[0]], q[1..]))
  }

  lemma PathAppend(t: Tree, p: Path, q: Path)
    requires ValidPath(t, p) && q != [] && ValidPath(SubAt(t, p), q)
    ensures ValidPath(t, p + [q[0]]) && SubAt(t, p + [q[0]]) == SubAt(t, p).children[q[0]]
    ensures p + [q[0]] + q[1..] == p + q
  {
    StepDown(t, p, q[0]);
    PathJoin(p, q);
  }

  lemma PathJoin(p: Path, q: Path)
    requires q != []
    ensures p + [q[0]] + q[1..] == p + q
  {
  }

  /** Going down by unambiguous names ends at the node. */
  lemma {:induction false} DescendFinds(b: Block, s: seq<byte>, toks: seq<Token>, i: int, t: Tree, p: Path, q: Path)
    returns (e: int)
    requires Run(b, toks) && NodeAt(s, toks, i, t, p) && ValidPath(SubAt(t, p), q) && Unambiguous(SubAt(t, p), q)
    ensures 0 <= e < |toks| && Descend(b, Off(toks, i), NamesTo(SubAt(t, p), q)) == Off(toks, e)
    ensures NodeAt(s, toks, e, t, p + q)
    decreases |q|
  {
    if q == [] {
      assert p + q == p;
      e := i;
    } else {
      var u := SubAt(t, p);
      var c := SubnodeTree(b, s, toks, i, t, p, u.children[q[0]].name);
      PathAppend(t, p, q);
      e := DescendFinds(b, s, toks, c, t, p + [q[0]], q[1..]);
    }
  }

  /** A path leads to one token. */
  lemma NodeUnique(s: seq<byte>, toks: seq<Token>, i: int, j: int, t: Tree, p: Path)
    requires NodeAt(s, toks, i, t, p) && NodeAt(s, toks, j, t, p)
    ensures i == j
  {
    if i < j {
      LaterReadsMore(s, toks, i, j);
    } else if j < i {
      LaterReadsMore(s, toks, j, i);
    }
  }

  lemma LaterReadsMore(s: seq<byte>, toks: seq<Token>, i: int, j: int)
    requires 0 <= i < j <= |toks| && toks[i].Begin? && ReadToks(s, toks[..i]).Read? && ReadToks(s, toks[..j]).Read?
    ensures |ReadToks(s, toks[..j]).entries| > |ReadToks(s, toks[..i]).entries|
  {
    assert toks[..j] == toks[..i] + toks[i..j];
    ReadAppend(s, toks[..i], toks[i..j]);
    ReadFirst(s, toks, i, j);
  }
}
