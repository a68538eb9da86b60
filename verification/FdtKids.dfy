/** Walking over the subnodes and the properties of a node
    (lib/libfdt/fdt.c:295-321, lib/libfdt/fdt_ro.c:343-359), in the tree that the
    blob reads as. */
module FdtKids {
  import opened Bytes
  import opened FdtTags
  import opened FdtStrings
  import opened FdtStream
  import opened FdtWalk
  import opened FdtEdit
  import opened FdtTrees
  import opened FdtLookup
  import opened FdtSearch
  import opened FdtRwTrees
  import opened FdtShape

  // --------------------------------------------------------------- subnodes

  /** fdt_first_subnode (lib/libfdt/fdt.c:295-304). */
  function FirstSub(b: Block, node: int): int {
    var (o, d) := NextNode(b, node, 0);
    if o < 0 || d != 1 then -ERR_NOTFOUND else o
  }

  /** The loop of fdt_next_subnode (lib/libfdt/fdt.c:314-318). */
  function NextSub(b: Block, offset: int, depth: int): int
    requires offset >= 0
    decreases |b| - offset
  {
    var (o, d) := NextNode(b, offset, depth);
    if o < 0 || d < 1 then -ERR_NOTFOUND else if d > 1 then NextSub(b, o, d) else o
  }

  method FdtFirstSubnode(b: Block, node: int) returns (child: int)
    requires |b| < U32
    ensures child == FirstSub(b, node)
  {
    var depth: int;
    child, depth := FdtNextNode(b, node, 0);
    if child < 0 || depth != 1 {
      return -ERR_NOTFOUND;
    }
  }

  method FdtNextSubnode(b: Block, node: int) returns (child: int)
    requires |b| < U32 && node >= 0
    ensures child == NextSub(b, node, 1)
  {
    child := node;
    var depth := 1;
    while true
      invariant child >= 0 && NextSub(b, node, 1) == NextSub(b, child, depth)
      decreases |b| - child
    {
      child, depth := FdtNextNode(b, child, depth);
      if child < 0 || depth < 1 {
        return -ERR_NOTFOUND;
      }
      if depth <= 1 {
        return;
      }
    }
  }

  /** On tokens: the next node from token j on whose parent is d levels up, -1 if
      that parent ends first. */
  function KidAfter(toks: seq<Token>, j: int, d: int): (e: int)
    requires 0 <= j <= |toks|
    ensures e == -1 || (j <= e < |toks| && toks[e].Begin?)
    decreases |toks| - j
  {
    if j == |toks| then -1
    else if toks[j].Begin? then if d == 0 then j else KidAfter(toks, j + 1, d + 1)
    else if toks[j].EndNode? then if d == 0 then -1 else KidAfter(toks, j + 1, d - 1)
    else KidAfter(toks, j + 1, d)
  }

  lemma {:induction false} ScanKid(toks: seq<Token>, j: int, d: int)
    requires 0 <= j <= |toks| && d >= 0
    ensures var s := Scan(toks, j, d);
      && (!s.AtNode? ==> KidAfter(toks, j, d) == -1)
      && (s.LeftAt? ==> s.depth < 0)
      && (s.AtNode? ==>
        s.depth >= 1 && KidAfter(toks, j, d) == if s.depth == 1 then s.index else KidAfter(toks, s.index + 1, s.depth))
    decreases |toks| - j
  {
    if j < |toks| {
      if toks[j].EndNode? {
        if d > 0 { ScanKid(toks, j + 1, d - 1); }
      } else if !toks[j].Begin? {
        ScanKid(toks, j + 1, d);
      }
    }
  }

  lemma FirstSubScans(b: Block, toks: seq<Token>, i: int)
    requires Run(b, toks) && 0 <= i < |toks| && toks[i].Begin?
    ensures FirstSub(b, Off(toks, i)) == SubOffset(toks, KidAfter(toks, i + 1, 0))
  {
    NextNodeScans(b, toks, i, 0);
    ScanKid(toks, i + 1, 0);
    FirstStop(toks, i + 1);
  }

  /** From depth 0 the first node met is at depth 1. */
  lemma {:induction false} FirstStop(toks: seq<Token>, j: int)
    requires 0 <= j <= |toks|
    ensures Scan(toks, j, 0).AtNode? ==> Scan(toks, j, 0).depth == 1
    decreases |toks| - j
  {
    if j < |toks| && !toks[j].Begin? && !toks[j].EndNode? { FirstStop(toks, j + 1); }
  }

  lemma NextSubStep(b: Block, offset: int, depth: int, o: int, d: int)
    requires offset >= 0 && NextNode(b, offset, depth) == (o, d)
    ensures NextSub(b, offset, depth) == if o < 0 || d < 1 then -ERR_NOTFOUND else if d > 1 then NextSub(b, o, d) else o
  {
  }

  lemma {:induction false} NextSubScans(b: Block, toks: seq<Token>, i: int, d: int)
    requires Run(b, toks) && 0 <= i < |toks| && toks[i].Begin? && d >= 1
    ensures NextSub(b, Off(toks, i), d) == SubOffset(toks, KidAfter(toks, i + 1, d))
    decreases |toks| - i
  {
    var s := Scan(toks, i + 1, d);
    NextNodeScans(b, toks, i, d);
    NextSubStep(b, Off(toks, i), d, StopOffset(toks, s), s.depth);
    ScanKid(toks, i + 1, d);
    if s.AtNode? && s.depth > 1 {
      NextSubScans(b, toks, s.index, s.depth);
    }
  }

  /** Past the end of the d-th open node. */
  lemma {:induction false} KidPast(toks: seq<Token>, j: int, d: int)
    requires 0 <= j <= |toks| && d >= 1 && EndFrom(toks, j, d) >= 0
    ensures KidAfter(toks, j, d) == KidAfter(toks, EndFrom(toks, j, d), 0)
    decreases |toks| - j
  {
    if !(toks[j].EndNode? && d == 1) { KidPast(toks, j + 1, d + Delta(toks[j])); }
  }

  lemma {:induction false} KidSkips(toks: seq<Token>, j: int)
    requires 0 <= j <= |toks| && NoFin(toks)
    ensures var k := SkipTok(toks, j); KidAfter(toks, j, 0) == if k < |toks| && toks[k].Begin? then k else -1
    decreases |toks| - j
  {
    if j < |toks| && (toks[j].Prop? || toks[j].Nop?) { KidSkips(toks, j + 1); }
  }

  /** The first call of a run that goes on with the children from c on. */
  lemma FirstCall(ts: seq<Tree>, rest: seq<Entry>)
    ensures var es := FlattenAll(ts) + ([Close] + rest);
      es != [] && es[0] == if ts == [] then Close else Open(ts[0].name)
  {
  }

  /** The token behind the properties is the first child, or the end of the node. */
  lemma TokenOfCall(s: seq<byte>, toks: seq<Token>, k: int, es: seq<Entry>)
    requires 0 <= k <= |toks| && Piece(s, toks, k, |toks|, es) && es != [] && NoFin(toks)
    requires k < |toks| ==> !toks[k].Prop? && !toks[k].Nop?
    ensures k < |toks| && (toks[k].Begin? <==> es[0].Open?)
  {
    if k == |toks| {
      PieceNil(s, toks, k);
    } else {
      var y, tail := PieceFirst(s, toks, k, es);
      assert es[0] == y[0];
    }
  }

  /** fdt_first_subnode at the node p: its first child, or FDT_ERR_NOTFOUND. */
  lemma FirstChildTree(b: Block, s: seq<byte>, toks: seq<Token>, i: int, t: Tree, p: Path) returns (e: int)
    requires Run(b, toks) && NodeAt(s, toks, i, t, p)
    ensures if SubAt(t, p).children == [] then FirstSub(b, Off(toks, i)) == -ERR_NOTFOUND
            else 0 <= e < |toks| && FirstSub(b, Off(toks, i)) == Off(toks, e) && NodeAt(s, toks, e, t, p + [0])
  {
    var u := SubAt(t, p);
    var rest := Rest(u, After(t, p));
    FirstSubScans(b, toks, i);
    KidSkips(toks, i + 1);
    e := SkipTok(toks, i + 1);
    NodeBody(s, toks, i, t, p);
    RestFirst(u, After(t, p));
    PieceTail(s, toks, i + 1, FlattenProps(u.props) + rest);
    SkipReads(s, toks, i + 1, u.props, rest);
    FirstCall(u.children, After(t, p));
    TokenOfCall(s, toks, e, rest);
    if u.children != [] {
      assert FlattenProps(u.props) + FlattenAll(u.children[..0]) == FlattenProps(u.props);
      ChildAt(s, toks, i, t, p, 0, e);
    }
  }

  lemma {:induction false} AfterDown(t: Tree, p: Path, k: nat)
    requires ValidPath(t, p) && ValidPath(t, p + [k]) && k < |SubAt(t, p).children|
    ensures After(t, p + [k]) == FlattenAll(SubAt(t, p).children[k + 1..]) + ([Close] + After(t, p))
    decreases |p|
  {
    var q := p + [k];
    if p == [] {
      assert q[0] == k && q[1..] == [];
      Reassociate([], FlattenAll(t.children[k + 1..]), [Close]);
    } else {
      var c, m := t.children[p[0]], FlattenAll(t.children[p[0] + 1..]);
      assert q[0] == p[0] && q[1..] == p[1..] + [k];
      AfterDown(c, p[1..], k);
      AfterStep(FlattenAll(SubAt(c, p[1..]).children[k + 1..]), After(c, p[1..]), m);
    }
  }

  lemma AfterStep(x: seq<Entry>, a: seq<Entry>, m: seq<Entry>)
    ensures x + ([Close] + a) + m + [Close] == x + ([Close] + (a + m + [Close]))
  {
  }

  lemma BeforeNext(t: Tree, p: Path, k: nat)
    requires ValidPath(t, p) && k + 1 < |SubAt(t, p).children|
    ensures ValidPath(t, p + [k]) && ValidPath(t, p + [k + 1])
    ensures Before(t, p + [k + 1]) == Before(t, p + [k]) + Flatten(SubAt(t, p + [k]))
  {
    var c := SubAt(t, p).children;
    StepDown(t, p, k);
    StepDown(t, p, k + 1);
    UpToNext(c, k);
    var o := [Open(SubAt(t, p).name)] + FlattenProps(SubAt(t, p).props);
    BeforeStep(Before(t, p), o, FlattenAll(c[..k]), Flatten(c[k]));
  }

  lemma BeforeStep(b: seq<Entry>, o: seq<Entry>, x: seq<Entry>, m: seq<Entry>)
    ensures b + (o + x) + m == b + (o + (x + m))
  {
  }

  lemma UpToNext(c: seq<Tree>, k: nat)
    requires k < |c|
    ensures FlattenAll(c[..k + 1]) == FlattenAll(c[..k]) + Flatten(c[k])
  {
    FlattenAppend(c[..k], [c[k]]);
    assert c[..k + 1] == c[..k] + [c[k]] && [c[k]][1..] == [];
    assert FlattenAll([c[k]]) == Flatten(c[k]);
  }

  /** fdt_next_subnode at child k of the node p: the next child, or
      FDT_ERR_NOTFOUND behind the last. */
  lemma NextChildTree(b: Block, s: seq<byte>, toks: seq<Token>, i: int, t: Tree, p: Path, k: nat) returns (e: int)
    requires Run(b, toks) && ValidPath(t, p) && k < |SubAt(t, p).children| && NodeAt(s, toks, i, t, p + [k])
    ensures if k + 1 == |SubAt(t, p).children| then NextSub(b, Off(toks, i), 1) == -ERR_NOTFOUND
            else 0 <= e < |toks| && NextSub(b, Off(toks, i), 1) == Off(toks, e) && NodeAt(s, toks, e, t, p + [k + 1])
  {
    var u := SubAt(t, p);
    var ts, after := u.children[k + 1..], After(t, p);
    var rest := FlattenAll(ts) + ([Close] + after);
    StepDown(t, p, k);
    AfterDown(t, p, k);
    var end := NodeSegment(s, toks, i, t, p + [k]);
    NextSubScans(b, toks, i, 1);
    KidPast(toks, i + 1, 1);
    KidSkips(toks, end);
    e := SkipTok(toks, end);
    FirstNotProperty(ts, [Close] + after);
    FirstCall(ts, after);
    assert FlattenProps([]) + rest == rest;
    PieceTail(s, toks, end, rest);
    SkipReads(s, toks, end, [], rest);
    TokenOfCall(s, toks, e, rest);
    if ts != [] {
      NextReads(s, toks, i, end, e, t, p, k);
    }
  }

  lemma NextReads(s: seq<byte>, toks: seq<Token>, i: int, end: int, e: int, t: Tree, p: Path, k: nat)
    requires ValidPath(t, p) && k + 1 < |SubAt(t, p).children| && NodeAt(s, toks, i, t, p + [k])
    requires i < end <= e < |toks| && toks[e].Begin? && ReadToks(s, toks[i..end]) == Read(Flatten(SubAt(t, p + [k])))
    requires Piece(s, toks, end, e, [])
    ensures NodeAt(s, toks, e, t, p + [k + 1])
  {
    ReadThree(s, toks[..i], toks[i..end], toks[end..e]);
    assert toks[..e] == toks[..i] + toks[i..end] + toks[end..e];
    BeforeNext(t, p, k);
  }

  // ------------------------------------------------------------- properties

  /** The first token from j on that is no FDT_NOP. */
  function NopsSkipped(toks: seq<Token>, j: int): (e: int)
    requires 0 <= j <= |toks|
    ensures j <= e <= |toks| && (e < |toks| ==> !toks[e].Nop?)
    decreases |toks| - j
  {
    if j < |toks| && toks[j].Nop? then NopsSkipped(toks, j + 1) else j
  }

  lemma {:induction false} NextPropScans(b: Block, toks: seq<Token>, j: int)
    requires Run(b, toks) && 0 <= j <= |toks|
    ensures var e := NopsSkipped(toks, j);
      if e < |toks| && toks[e].Prop? then NextProp(b, Off(toks, j)) == Off(toks, e) else NextProp(b, Off(toks, j)) < 0
    decreases |toks| - j
  {
    if j == |toks| {
      RunAtEnd(b, toks);
    } else {
      RunAt(b, toks, j);
      if toks[j].Nop? { NextPropScans(b, toks, j + 1); }
    }
  }

  lemma {:induction false} NopsUncounted(toks: seq<Token>, j: int)
    requires 0 <= j <= |toks|
    ensures Reals(toks[..NopsSkipped(toks, j)]) == Reals(toks[..j])
    decreases |toks| - j
  {
    if j < |toks| && toks[j].Nop? {
      OneMore(toks, j);
      NopsUncounted(toks, j + 1);
    }
  }

  lemma {:induction false} RealsAppend(a: seq<Token>, c: seq<Token>)
    ensures Reals(a + c) == Reals(a) + Reals(c)
  {
    if a == [] {
      assert a + c == c;
    } else {
      assert (a + c)[0] == a[0] && (a + c)[1..] == a[1..] + c;
      RealsAppend(a[1..], c);
    }
  }

  lemma OneMore(toks: seq<Token>, j: int)
    requires 0 <= j < |toks|
    ensures Reals(toks[..j + 1]) == Reals(toks[..j]) + if Real(toks[j]) then 1 else 0
  {
    assert toks[..j + 1] == toks[..j] + [toks[j]];
    RealsAppend(toks[..j], [toks[j]]);
    assert [toks[j]][1..] == [];
  }

  lemma {:induction false} NopsUnread(s: seq<byte>, toks: seq<Token>, j: int)
    requires 0 <= j <= |toks|
    ensures ReadToks(s, toks[NopsSkipped(toks, j)..]) == ReadToks(s, toks[j..])
    decreases |toks| - j
  {
    if j < |toks| && toks[j].Nop? {
      assert toks[j..][0] == toks[j] && toks[j..][1..] == toks[j + 1..];
      NopsUnread(s, toks, j + 1);
    }
  }

  /** What follows tells whether there is another property. */
  lemma PropFollows(s: seq<byte>, toks: seq<Token>, j: int, ps: Props, rest: seq<Entry>)
    requires 0 <= j <= |toks| && ReadToks(s, toks[j..]) == Read(FlattenProps(ps) + rest) && rest != []
    requires !rest[0].Property? && NoFin(toks)
    ensures var e := NopsSkipped(toks, j); e < |toks| && (toks[e].Prop? <==> ps != [])
  {
    var e := NopsSkipped(toks, j);
    NopsUnread(s, toks, j);
    PieceTail(s, toks, e, FlattenProps(ps) + rest);
    BodyFirst(ps, rest);
    if e == |toks| {
      PieceNil(s, toks, e);
    } else {
      var y, tail := PieceFirst(s, toks, e, FlattenProps(ps) + rest);
      assert (FlattenProps(ps) + rest)[0] == y[0];
    }
  }

  /** fdt_first_property_offset at the node p: its first property, if any. */
  lemma FirstPropTree(b: Block, s: seq<byte>, toks: seq<Token>, i: int, t: Tree, p: Path) returns (e: int)
    requires Run(b, toks) && NodeAt(s, toks, i, t, p)
    ensures if SubAt(t, p).props == [] then FirstProp(b, Off(toks, i)) < 0
            else 0 <= e < |toks| && FirstProp(b, Off(toks, i)) == Off(toks, e) && PropertyAt(s, toks, e, t, p, 0)
  {
    var u := SubAt(t, p);
    e := NopsSkipped(toks, i + 1);
    RunAt(b, toks, i);
    OffGrows(toks, 0, i);
    NextPropScans(b, toks, i + 1);
    NodeBody(s, toks, i, t, p);
    RestFirst(u, After(t, p));
    PropFollows(s, toks, i + 1, u.props, Rest(u, After(t, p)));
    NopsUncounted(toks, i + 1);
    OneMore(toks, i);
    NodeCount(s, toks, i, t, p);
  }

  /** fdt_next_property_offset at property k of the node p. */
  lemma NextPropTree(b: Block, s: seq<byte>, toks: seq<Token>, e: int, t: Tree, p: Path, k: int) returns (f: int)
    requires Run(b, toks) && PropertyAt(s, toks, e, t, p, k)
    ensures if k + 1 == |SubAt(t, p).props| then PropAfter(b, Off(toks, e)) < 0
            else 0 <= f < |toks| && PropAfter(b, Off(toks, e)) == Off(toks, f) && PropertyAt(s, toks, f, t, p, k + 1)
  {
    var u := SubAt(t, p);
    f := NopsSkipped(toks, e + 1);
    RunAt(b, toks, e);
    OffGrows(toks, 0, e);
    NextPropScans(b, toks, e + 1);
    PropertyReads(s, toks, e, t, p, k);
    RestFirst(u, After(t, p));
    PropFollows(s, toks, e + 1, u.props[k + 1..], Rest(u, After(t, p)));
    NopsUncounted(toks, e + 1);
    OneMore(toks, e);
  }

  /** fdt_getprop at the node p: the token of the first property of that name. */
  lemma NamedPropTree(b: Block, s: seq<byte>, toks: seq<Token>, i: int, t: Tree, p: Path, name: seq<byte>)
    returns (e: int)
    requires Run(b, toks) && NodeAt(s, toks, i, t, p)
    ensures var k := PropIndex(SubAt(t, p).props, name);
      if k < 0 then GetProp(b, s, Off(toks, i), name) == -ERR_NOTFOUND
      else 0 <= e < |toks| && GetProp(b, s, Off(toks, i), name) == Off(toks, e) && PropertyAt(s, toks, e, t, p, k)
  {
    var u, k := SubAt(t, p), PropIndex(SubAt(t, p).props, name);
    var rest := Rest(u, After(t, p));
    e := FindTok(s, toks, i + 1, name);
    GetPropFinds(b, s, toks, i, name);
    NodeBody(s, toks, i, t, p);
    RestFirst(u, After(t, p));
    PieceTail(s, toks, i + 1, FlattenProps(u.props) + rest);
    FindReads(s, toks, i + 1, u.props, rest, name);
    if k >= 0 {
      FoundParts(s, toks, i, t, p, name);
      ReadCount(s, toks[..e]);
      PropsLength(u.props[..k]);
    }
  }

  // ------------------------------------------------------ nodes and their tokens

  /** Every call that opens a node opens one of the tree. */
  lemma {:induction false} OpenIsNode(t: Tree, n: int) returns (p: Path)
    requires 0 <= n < |Flatten(t)| && Flatten(t)[n].Open?
    ensures ValidPath(t, p) && |Before(t, p)| == n
    decreases t, 1
  {
    if n == 0 {
      p := [];
    } else {
      var a, m := |FlattenProps(t.props)|, n - 1 - |FlattenProps(t.props)|;
      NotInProps(t, n);
      var k, q := OpenInForest(t.children, m);
      p := [k] + q;
      assert p[1..] == q;
    }
  }

  lemma NotInProps(t: Tree, n: int)
    requires 0 < n < |Flatten(t)| && Flatten(t)[n].Open?
    ensures var m := n - 1 - |FlattenProps(t.props)|;
      0 <= m < |FlattenAll(t.children)| && FlattenAll(t.children)[m] == Flatten(t)[n]
  {
    var a := FlattenProps(t.props);
    assert n - 1 < |a| ==> Flatten(t)[n] == a[n - 1];
    PropsOnly(t.props);
  }

  lemma {:induction false} PropsOnly(ps: Props)
    ensures forall n :: 0 <= n < |FlattenProps(ps)| ==> FlattenProps(ps)[n].Property?
  {
    if ps != [] { PropsOnly(ps[1..]); }
  }

  lemma {:induction false} OpenInForest(ts: seq<Tree>, m: int) returns (k: nat, q: Path)
    requires 0 <= m < |FlattenAll(ts)| && FlattenAll(ts)[m].Open?
    ensures k < |ts| && ValidPath(ts[k], q) && |FlattenAll(ts[..k])| + |Before(ts[k], q)| == m
    decreases ts, 0
  {
    var n := |Flatten(ts[0])|;
    if m < n {
      assert FlattenAll(ts)[m] == Flatten(ts[0])[m];
      q := OpenIsNode(ts[0], m);
      k := 0;
      assert ts[..0] == [];
    } else {
      assert FlattenAll(ts)[m] == FlattenAll(ts[1..])[m - n];
      k, q := OpenInForest(ts[1..], m - n);
      k := k + 1;
      assert ts[..k][0] == ts[0] && ts[..k][1..] == ts[1..][..k - 1];
    }
  }

  /** Every FDT_BEGIN_NODE is a node of the tree. */
  lemma BeginIsNode(s: seq<byte>, toks: seq<Token>, j: int, t: Tree) returns (p: Path)
    requires Whole(s, toks, t) && 0 <= j < |toks| && toks[j].Begin?
    ensures NodeAt(s, toks, j, t, p)
  {
    var n := Reals(toks[..j]);
    ReadPrefix(s, toks, t, j);
    var tail := ReadRest(s, toks, j);
    assert toks[j..|toks|] == toks[j..] && toks[j + 1..|toks|] == toks[j + 1..];
    ReadFirst(s, toks, j, |toks|);
    assert Flatten(t)[n..] == [Open(toks[j].name)] + tail;
    assert Flatten(t)[n] == Flatten(t)[n..][0];
    p := OpenIsNode(t, n);
    NodeCount(s, toks, j, t, p);
  }

  lemma PrefixLength(ts: seq<Tree>, a: nat, c: nat)
    requires a < c <= |ts|
    ensures |FlattenAll(ts[..a])| + |Flatten(ts[a])| <= |FlattenAll(ts[..c])|
  {
    UpToNext(ts, a);
    FlattenAppend(ts[..a + 1], ts[a + 1..c]);
    assert ts[..c] == ts[..a + 1] + ts[a + 1..c];
  }

  lemma BeforeInside(t: Tree, p: Path)
    requires ValidPath(t, p)
    ensures |Before(t, p)| < |Flatten(t)|
  {
    AroundNode(t, p);
    TreeShape(SubAt(t, p), []);
  }

  lemma {:induction false} PathUnique(t: Tree, p: Path, q: Path)
    requires ValidPath(t, p) && ValidPath(t, q) && |Before(t, p)| == |Before(t, q)|
    ensures p == q
    decreases |p|
  {
    if p != [] && q != [] {
      var c := t.children;
      BeforeInside(c[p[0]], p[1..]);
      BeforeInside(c[q[0]], q[1..]);
      if p[0] < q[0] {
        PrefixLength(c, p[0], q[0]);
      } else if q[0] < p[0] {
        PrefixLength(c, q[0], p[0]);
      } else {
        PathUnique(c[p[0]], p[1..], q[1..]);
        assert p == [p[0]] + p[1..] && q == [q[0]] + q[1..];
      }
    }
  }

  /** One token begins one node. */
  lemma OneNode(s: seq<byte>, toks: seq<Token>, i: int, t: Tree, p: Path, q: Path)
    requires NodeAt(s, toks, i, t, p) && NodeAt(s, toks, i, t, q)
    ensures p == q
  {
    NodeCount(s, toks, i, t, p);
    NodeCount(s, toks, i, t, q);
    PathUnique(t, p, q);
  }
}
