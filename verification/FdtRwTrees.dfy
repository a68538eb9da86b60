/** What the edits of FdtRw make of the tree that the blob reads as. */
module FdtRwTrees {
  import opened Bytes
  import opened FdtTags
  import opened FdtStrings
  import opened FdtStream
  import opened FdtWalk
  import opened FdtEdit
  import opened FdtTrees
  import opened FdtLookup
  import opened FdtRwModel
  import opened FdtRw

  /** The blob reads as the tree t, and token i opens its node at p. */
  ghost predicate TreeAt(f: Rw, toks: seq<Token>, i: int, t: Tree, p: Path) {
    Ordered(f) && Run(BlockOf(f), toks) && NodeAt(StringsOf(f), toks, i, t, p)
  }

  ghost predicate BlobReads(f: Rw, t: Tree) {
    Ordered(f) && Reads(BlockOf(f), StringsOf(f), Flatten(t))
  }

  // ------------------------------------------------------------- splicing

  /** A splice on token boundaries. */
  lemma SplicedRun(f: Rw, g: Rw, toks: seq<Token>, i: int, e: int, n: Block, y: seq<Token>)
    requires 0 <= i <= e <= |toks| && Ordered(f) && Run(BlockOf(f), toks)
    requires Spliced(f, g, Off(toks, i), Off(toks, e) - Off(toks, i), n) && Laid(n, 0, y) && SizeAll(y) == |n|
    requires NoFin(y)
    ensures Ordered(g) && StringsOf(g) == StringsOf(f) && Run(BlockOf(g), toks[..i] + y + toks[e..])
  {
    SplicedIs(f, g, Off(toks, i), Off(toks, e) - Off(toks, i), n);
    OffGrows(toks, i, e);
    RunBound(BlockOf(f), toks, e);
    ReplaceRun(BlockOf(f), BlockOf(g), toks, i, e, y, n);
  }

  /** Reading the three parts of an edited run. */
  lemma ReadEdited(b: Block, s: seq<byte>, a: seq<Token>, x: seq<Token>, c: seq<Token>, ea: seq<Entry>, ex: seq<Entry>,
      ec: seq<Entry>)
    requires Run(b, a + x + c) && ReadToks(s, a) == Read(ea) && ReadToks(s, x) == Read(ex) && ReadToks(s, c) == Read(ec)
    ensures Reads(b, s, ea + ex + ec)
  {
    ReadThree(s, a, x, c);
    RunReads(b, s, a + x + c);
    ReadsIs(b, s, ea + ex + ec);
  }

  // --------------------------------------------------------------- deleting

  /** fdt_del_node at the node p: the call finds its end, and what is left reads
      as the tree without it. */
  lemma DelNodeTree(f: Rw, toks: seq<Token>, i: int, t: Tree, p: Path) returns (e: int)
    requires TreeAt(f, toks, i, t, p) && p != []
    ensures i < e <= |toks| && NodeEnd(BlockOf(f), Off(toks, i), 0) == Off(toks, e)
    ensures forall g :: Spliced(f, g, Off(toks, i), Off(toks, e) - Off(toks, i), []) ==> BlobReads(g, RemoveAt(t, p))
  {
    e := NodeSegment(StringsOf(f), toks, i, t, p);
    NodeEndFound(BlockOf(f), toks, i, 0);
    forall g | Spliced(f, g, Off(toks, i), Off(toks, e) - Off(toks, i), [])
      ensures BlobReads(g, RemoveAt(t, p))
    {
      LaidNil([], 0);
      SplicedRun(f, g, toks, i, e, [], []);
      ReadEdited(BlockOf(g), StringsOf(g), toks[..i], [], toks[e..], Before(t, p), [], After(t, p));
      WithoutNode(t, p);
    }
  }

  // ----------------------------------------------------------------- adding

  /** Behind the properties of the node that token i opens. */
  function SkipTok(toks: seq<Token>, j: int): (k: int)
    requires 0 <= j <= |toks|
    ensures j <= k <= |toks| && (k < |toks| ==> !toks[k].Prop? && !toks[k].Nop?)
    ensures forall m :: j <= m < k ==> toks[m].Prop? || toks[m].Nop?
    decreases |toks| - j
  {
    if j < |toks| && (toks[j].Prop? || toks[j].Nop?) then SkipTok(toks, j + 1) else j
  }

  lemma {:induction false} SkipMatches(b: Block, toks: seq<Token>, j: int)
    requires Run(b, toks) && 0 <= j <= |toks|
    ensures SkipProps(b, Off(toks, j)) == Off(toks, SkipTok(toks, j))
    decreases |toks| - j
  {
    if j == |toks| {
      RunAtEnd(b, toks);
    } else {
      RunAt(b, toks, j);
      if toks[j].Prop? || toks[j].Nop? {
        SkipMatches(b, toks, j + 1);
      }
    }
  }

  lemma {:induction false} SkipReads(s: seq<byte>, toks: seq<Token>, j: int, ps: seq<(seq<byte>, seq<byte>)>,
      rest: seq<Entry>)
    requires 0 <= j <= |toks| && Piece(s, toks, j, |toks|, FlattenProps(ps) + rest) && rest != [] && !rest[0].Property?
    requires NoFin(toks)
    ensures var k := SkipTok(toks, j); Piece(s, toks, j, k, FlattenProps(ps)) && Piece(s, toks, k, |toks|, rest)
    decreases |toks| - j
  {
    BodyFirst(ps, rest);
    if j == |toks| {
      PieceTail(s, toks, j, FlattenProps(ps) + rest);
    } else {
      var y, tail := PieceFirst(s, toks, j, FlattenProps(ps) + rest);
      var k := SkipTok(toks, j);
      if toks[j].Nop? {
        assert y + tail == tail;
        SkipReads(s, toks, j + 1, ps, rest);
        PieceCons(s, toks, j, k, [], FlattenProps(ps));
        assert [] + FlattenProps(ps) == FlattenProps(ps);
      } else if toks[j].Prop? {
        SkipProp(s, toks, j, ps, rest, tail);
        SkipReads(s, toks, j + 1, ps[1..], rest);
        PieceCons(s, toks, j, k, y, FlattenProps(ps[1..]));
      } else {
        assert (FlattenProps(ps) + rest)[0] == y[0];
        PieceNil(s, toks, j);
      }
    }
  }

  /** The first call of a node's body tells whether it has a property. */
  lemma BodyFirst(ps: seq<(seq<byte>, seq<byte>)>, rest: seq<Entry>)
    requires rest != [] && !rest[0].Property?
    ensures (FlattenProps(ps) + rest)[0].Property? <==> ps != []
    ensures ps == [] ==> FlattenProps(ps) + rest == rest
  {
  }

  lemma BodyTail(ps: seq<(seq<byte>, seq<byte>)>, rest: seq<Entry>)
    requires ps != []
    ensures FlattenProps(ps) + rest == [Property(ps[0].0, ps[0].1)] + (FlattenProps(ps[1..]) + rest)
  {
  }

  lemma ConsEq<T>(x: T, a: seq<T>, y: T, b: seq<T>)
    requires [x] + a == [y] + b
    ensures x == y && a == b
  {
    assert ([x] + a)[0] == ([y] + b)[0] && ([x] + a)[1..] == ([y] + b)[1..];
  }

  /** A property token is the first of the properties. */
  lemma SkipProp(s: seq<byte>, toks: seq<Token>, j: int, ps: seq<(seq<byte>, seq<byte>)>, rest: seq<Entry>,
      tail: seq<Entry>)
    requires 0 <= j < |toks| && toks[j].Prop? && GetString(s, toks[j].nameoff).Text? && rest != [] && !rest[0].Property?
    requires FlattenProps(ps) + rest == [Property(GetString(s, toks[j].nameoff).text, toks[j].val)] + tail
    ensures ps != [] && tail == FlattenProps(ps[1..]) + rest
    ensures GetString(s, toks[j].nameoff) == Text(ps[0].0) && toks[j].val == ps[0].1
  {
    var e := Property(GetString(s, toks[j].nameoff).text, toks[j].val);
    BodyFirst(ps, rest);
    BodyTail(ps, rest);
    ConsEq(e, tail, Property(ps[0].0, ps[0].1), FlattenProps(ps[1..]) + rest);
  }

  /** The calls of a node in two parts, put back together. */
  lemma Reassembled(t: Tree, p: Path, u: Tree, x: seq<Entry>, m: seq<Entry>, y: seq<Entry>)
    requires ValidPath(t, p) && x + m + y == FlattenProps(u.props) + Rest(u, After(t, p))
    ensures Before(t, p) + ([Open(u.name)] + x) + m + y == Flatten(ReplaceAt(t, p, u))
  {
    ReplacedNode(t, p, u);
    TreeShape(u, After(t, p));
    Assoc(Before(t, p), [Open(u.name)], x, m, y);
    Reassociate(Before(t, p), Flatten(u), After(t, p));
  }

  lemma Assoc<T>(b: seq<T>, o: seq<T>, x: seq<T>, m: seq<T>, y: seq<T>)
    ensures b + (o + x) + m + y == b + (o + (x + m + y))
  {
  }

  /** The tree with a new, empty node as the first child of the one at p. */
  function AddAt(t: Tree, p: Path, name: seq<byte>): Tree
    requires ValidPath(t, p)
  {
    var u := SubAt(t, p);
    ReplaceAt(t, p, u.(children := [Node(name, [], [])] + u.children))
  }

  lemma NewChildRest(u: Tree, name: seq<byte>, after: seq<Entry>)
    ensures Rest(u.(children := [Node(name, [], [])] + u.children), after) == [Open(name), Close] + Rest(u, after)
  {
    var n := Node(name, [], []);
    assert ([n] + u.children)[1..] == u.children;
    assert Flatten(n) == [Open(name), Close];
    assert FlattenAll([n] + u.children) == [Open(name), Close] + FlattenAll(u.children);
  }

  lemma NewChildReads(s: seq<byte>, name: seq<byte>)
    ensures ReadToks(s, [Begin(name), EndNode]) == Read([Open(name), Close])
  {
    var ts := [Begin(name), EndNode];
    assert ts[1..] == [EndNode] && ts[1..][1..] == [];
    assert ReadToks(s, [EndNode]) == Read([Close]);
    assert [Open(name)] + [Close] == [Open(name), Close];
  }

  /** fdt_add_subnode at the node p: the blob reads as the tree with the new node
      behind the properties and before the other children. */
  lemma AddSubnodeTree(f: Rw, g: Rw, toks: seq<Token>, i: int, t: Tree, p: Path, name: seq<byte>)
    requires TreeAt(f, toks, i, t, p) && NoNul(name)
    requires Spliced(f, g, SkipProps(BlockOf(f), CheckNode(BlockOf(f), Off(toks, i))), 0, NodeBytes(name))
    ensures BlobReads(g, AddAt(t, p, name))
  {
    var s, u := StringsOf(f), SubAt(t, p);
    var k := SkipTok(toks, i + 1);
    RunAt(BlockOf(f), toks, i);
    SkipMatches(BlockOf(f), toks, i + 1);
    NodeBody(s, toks, i, t, p);
    RestFirst(u, After(t, p));
    PieceTail(s, toks, i + 1, FlattenProps(u.props) + Rest(u, After(t, p)));
    SkipReads(s, toks, i + 1, u.props, Rest(u, After(t, p)));
    PieceTail(s, toks, k, Rest(u, After(t, p)));
    ReadUpTo(s, toks, i, t, p, k, FlattenProps(u.props));
    NodeBytesLaid(name);
    SplicedRun(f, g, toks, k, k, NodeBytes(name), [Begin(name), EndNode]);
    NewChildReads(s, name);
    ReadEdited(BlockOf(g), s, toks[..k], [Begin(name), EndNode], toks[k..],
               Before(t, p) + ([Open(u.name)] + FlattenProps(u.props)), [Open(name), Close], Rest(u, After(t, p)));
    AddedCalls(t, p, name);
  }

  lemma AddedCalls(t: Tree, p: Path, name: seq<byte>)
    requires ValidPath(t, p)
    ensures var u := SubAt(t, p);
      Before(t, p) + ([Open(u.name)] + FlattenProps(u.props)) + [Open(name), Close] + Rest(u, After(t, p))
        == Flatten(AddAt(t, p, name))
  {
    var u, after := SubAt(t, p), After(t, p);
    var v := u.(children := [Node(name, [], [])] + u.children);
    NewChildRest(u, name, after);
    assert FlattenProps(u.props) + [Open(name), Close] + Rest(u, after) == FlattenProps(v.props) + Rest(v, after);
    Reassembled(t, p, v, FlattenProps(u.props), [Open(name), Close], Rest(u, after));
  }

  // ------------------------------------------------------ setting a property

  /** The first property of that name, -1 if there is none. */
  function PropIndex(ps: seq<(seq<byte>, seq<byte>)>, name: seq<byte>): (k: int)
    ensures -1 <= k < |ps| && (k >= 0 ==> ps[k].0 == name)
  {
    if ps == [] then -1
    else if ps[0].0 == name then 0
    else Plus(1, PropIndex(ps[1..], name))
  }

  lemma {:induction false} NoneBefore(ps: seq<(seq<byte>, seq<byte>)>, name: seq<byte>)
    ensures var k := PropIndex(ps, name); forall m :: 0 <= m < (if k < 0 then |ps| else k) ==> ps[m].0 != name
  {
    if ps != [] && ps[0].0 != name {
      var qs, k := ps[1..], PropIndex(ps, name);
      NoneBefore(qs, name);
      forall m | 0 <= m < (if k < 0 then |ps| else k)
        ensures ps[m].0 != name
      {
        if m > 0 { assert ps[m] == qs[m - 1]; }
      }
    }
  }

  /** The properties with that one set: in its place, or first. */
  function PutIn(ps: seq<(seq<byte>, seq<byte>)>, name: seq<byte>, val: seq<byte>): seq<(seq<byte>, seq<byte>)> {
    var k := PropIndex(ps, name);
    if k >= 0 then ps[k := (name, val)] else [(name, val)] + ps
  }

  function SetAt(t: Tree, p: Path, name: seq<byte>, val: seq<byte>): Tree
    requires ValidPath(t, p)
  {
    var u := SubAt(t, p);
    ReplaceAt(t, p, u.(props := PutIn(u.props, name, val)))
  }

  /** Looking the property up afterwards gives the value, any other name gives
      what it gave. */
  lemma PutInLookup(ps: seq<(seq<byte>, seq<byte>)>, name: seq<byte>, val: seq<byte>, other: seq<byte>)
    ensures var qs := PutIn(ps, name, val);
      && PropIndex(qs, name) >= 0 && qs[PropIndex(qs, name)].1 == val
      && (other != name ==> (PropIndex(qs, other) >= 0 <==> PropIndex(ps, other) >= 0)
                            && (PropIndex(ps, other) >= 0 ==> qs[PropIndex(qs, other)] == ps[PropIndex(ps, other)]))
  {
    var k, qs := PropIndex(ps, name), PutIn(ps, name, val);
    var o := PropIndex(ps, other);
    NoneBefore(ps, name);
    NoneBefore(ps, other);
    NoneBefore(qs, other);
    if k >= 0 {
      assert qs[k] == (name, val);
      FirstIndex(qs, name, k);
      if other != name && o >= 0 { FirstIndex(qs, other, o); }
    } else {
      assert qs[0] == (name, val);
      FirstIndex(qs, name, 0);
      if other != name && o >= 0 {
        assert qs[o + 1] == ps[o];
        FirstIndex(qs, other, o + 1);
      }
    }
  }

  lemma {:induction false} FirstIndex(ps: seq<(seq<byte>, seq<byte>)>, name: seq<byte>, k: int)
    requires 0 <= k < |ps| && ps[k].0 == name && forall m :: 0 <= m < k ==> ps[m].0 != name
    ensures PropIndex(ps, name) == k
  {
    if k > 0 {
      assert ps[0].0 != name;
      FirstIndex(ps[1..], name, k - 1);
    }
  }

  lemma {:induction false} PropsAppend(a: seq<(seq<byte>, seq<byte>)>, c: seq<(seq<byte>, seq<byte>)>)
    ensures FlattenProps(a + c) == FlattenProps(a) + FlattenProps(c)
  {
    if a == [] {
      assert a + c == c;
    } else {
      assert (a + c)[0] == a[0] && (a + c)[1..] == a[1..] + c;
      PropsAppend(a[1..], c);
    }
  }

  /** Where the search on tokens stops, in terms of the properties. */
  ghost predicate Located(s: seq<byte>, toks: seq<Token>, j: int, ps: seq<(seq<byte>, seq<byte>)>, rest: seq<Entry>,
      e: int, k: int)
    requires -1 <= k < |ps|
  {
    if k < 0 then e == -1
    else 0 <= e < |toks| && toks[e].Prop? && toks[e].val == ps[k].1 && Piece(s, toks, j, e, FlattenProps(ps[..k]))
         && Piece(s, toks, e + 1, |toks|, FlattenProps(ps[k + 1..]) + rest)
  }

  lemma {:induction false} FindReads(s: seq<byte>, toks: seq<Token>, j: int, ps: seq<(seq<byte>, seq<byte>)>,
      rest: seq<Entry>, name: seq<byte>)
    requires 0 <= j <= |toks| && Piece(s, toks, j, |toks|, FlattenProps(ps) + rest) && rest != [] && !rest[0].Property?
    requires NoFin(toks)
    ensures Located(s, toks, j, ps, rest, FindTok(s, toks, j, name), PropIndex(ps, name))
    decreases |toks| - j
  {
    BodyFirst(ps, rest);
    if j == |toks| {
      PieceTail(s, toks, j, FlattenProps(ps) + rest);
    } else {
      var y, tail := PieceFirst(s, toks, j, FlattenProps(ps) + rest);
      if toks[j].Nop? {
        assert y + tail == tail;
        FindReads(s, toks, j + 1, ps, rest, name);
        LocatedNop(s, toks, j, ps, rest, FindTok(s, toks, j + 1, name), PropIndex(ps, name));
      } else if toks[j].Prop? {
        SkipProp(s, toks, j, ps, rest, tail);
        if ps[0].0 == name {
          LocatedHere(s, toks, j, ps, rest);
        } else {
          FindReads(s, toks, j + 1, ps[1..], rest, name);
          LocatedLater(s, toks, j, ps, rest, FindTok(s, toks, j + 1, name), PropIndex(ps[1..], name));
        }
      } else {
        assert (FlattenProps(ps) + rest)[0] == y[0];
      }
    }
  }

  lemma LocatedNop(s: seq<byte>, toks: seq<Token>, j: int, ps: seq<(seq<byte>, seq<byte>)>, rest: seq<Entry>, e: int,
      k: int)
    requires 0 <= j < |toks| && toks[j].Nop? && -1 <= k < |ps| && Located(s, toks, j + 1, ps, rest, e, k)
    ensures Located(s, toks, j, ps, rest, e, k)
  {
    if k >= 0 {
      PieceCons(s, toks, j, e, [], FlattenProps(ps[..k]));
      assert [] + FlattenProps(ps[..k]) == FlattenProps(ps[..k]);
    }
  }

  lemma LocatedHere(s: seq<byte>, toks: seq<Token>, j: int, ps: seq<(seq<byte>, seq<byte>)>, rest: seq<Entry>)
    requires 0 <= j < |toks| && ps != [] && toks[j].Prop? && toks[j].val == ps[0].1
    requires Piece(s, toks, j + 1, |toks|, FlattenProps(ps[1..]) + rest)
    ensures Located(s, toks, j, ps, rest, j, 0)
  {
    PieceNil(s, toks, j);
    assert ps[..0] == [];
  }

  lemma LocatedLater(s: seq<byte>, toks: seq<Token>, j: int, ps: seq<(seq<byte>, seq<byte>)>, rest: seq<Entry>, e: int,
      k: int)
    requires 0 <= j < |toks| && ps != [] && ReadOne(s, toks[j]) == Read([Property(ps[0].0, ps[0].1)])
    requires -1 <= k < |ps| - 1 && Located(s, toks, j + 1, ps[1..], rest, e, k)
    ensures Located(s, toks, j, ps, rest, e, Plus(1, k))
  {
    if k >= 0 {
      PieceCons(s, toks, j, e, [Property(ps[0].0, ps[0].1)], FlattenProps(ps[1..][..k]));
      PropsTake(ps, k + 1);
      assert ps[1..][k + 1..] == ps[k + 2..];
    }
  }

  lemma PropsTake(ps: seq<(seq<byte>, seq<byte>)>, k: int)
    requires 0 < k <= |ps|
    ensures FlattenProps(ps[..k]) == [Property(ps[0].0, ps[0].1)] + FlattenProps(ps[1..][..k - 1])
  {
    assert ps[..k][0] == ps[0] && ps[..k][1..] == ps[1..][..k - 1];
  }

  // ------------------------------------------------- the value of a property

  lemma PropReads(s: seq<byte>, q: int, name: seq<byte>, val: seq<byte>)
    requires GetString(s, q) == Text(name)
    ensures ReadToks(s, [Prop(q, val)]) == Read([Property(name, val)])
  {
    assert [Prop(q, val)][1..] == [];
  }

  lemma TokenLaid(n: Block, t: Token)
    requires Holds(n, 0, t) && |n| == Size(t)
    ensures Laid(n, 0, [t]) && SizeAll([t]) == |n|
  {
    LaidOne(n, 0, t);
  }

  lemma SetCalls(t: Tree, p: Path, name: seq<byte>, val: seq<byte>)
    requires ValidPath(t, p)
    ensures var u, k, rest := SubAt(t, p), PropIndex(SubAt(t, p).props, name), Rest(SubAt(t, p), After(t, p));
      if k >= 0 then
        Before(t, p) + ([Open(u.name)] + FlattenProps(u.props[..k])) + [Property(name, val)]
          + (FlattenProps(u.props[k + 1..]) + rest)
        == Flatten(SetAt(t, p, name, val))
      else
        Before(t, p) + ([Open(u.name)] + []) + [Property(name, val)] + (FlattenProps(u.props) + rest)
          == Flatten(SetAt(t, p, name, val))
  {
    var u, rest := SubAt(t, p), Rest(SubAt(t, p), After(t, p));
    var ps, k := u.props, PropIndex(u.props, name);
    var v := u.(props := PutIn(ps, name, val));
    if k >= 0 {
      PutParts(ps, k, name, val, rest);
      Reassembled(t, p, v, FlattenProps(ps[..k]), [Property(name, val)], FlattenProps(ps[k + 1..]) + rest);
    } else {
      assert v.props[0] == (name, val) && v.props[1..] == ps;
      assert [] + [Property(name, val)] + (FlattenProps(ps) + rest) == FlattenProps(v.props) + rest;
      Reassembled(t, p, v, [], [Property(name, val)], FlattenProps(ps) + rest);
    }
  }

  lemma PutParts(ps: seq<(seq<byte>, seq<byte>)>, k: int, name: seq<byte>, val: seq<byte>, rest: seq<Entry>)
    requires 0 <= k < |ps|
    ensures FlattenProps(ps[..k]) + [Property(name, val)] + (FlattenProps(ps[k + 1..]) + rest)
      == FlattenProps(ps[k := (name, val)]) + rest
  {
    var qs := ps[k := (name, val)];
    assert qs == ps[..k] + qs[k..] && qs[k..][0] == (name, val) && qs[k..][1..] == ps[k + 1..];
    PropsAppend(ps[..k], qs[k..]);
  }

  lemma FoundParts(s: seq<byte>, toks: seq<Token>, i: int, t: Tree, p: Path, name: seq<byte>)
    requires NodeAt(s, toks, i, t, p) && NoFin(toks) && PropIndex(SubAt(t, p).props, name) >= 0
    ensures var u, e, k := SubAt(t, p), FindTok(s, toks, i + 1, name), PropIndex(SubAt(t, p).props, name);
      && e >= 0
      && ReadToks(s, toks[..e]) == Read(Before(t, p) + ([Open(u.name)] + FlattenProps(u.props[..k])))
      && ReadToks(s, toks[e + 1..]) == Read(FlattenProps(u.props[k + 1..]) + Rest(u, After(t, p)))
  {
    var u := SubAt(t, p);
    var rest, k, e := Rest(u, After(t, p)), PropIndex(u.props, name), FindTok(s, toks, i + 1, name);
    NodeBody(s, toks, i, t, p);
    RestFirst(u, After(t, p));
    PieceTail(s, toks, i + 1, FlattenProps(u.props) + rest);
    FindReads(s, toks, i + 1, u.props, rest, name);
    PieceTail(s, toks, e + 1, FlattenProps(u.props[k + 1..]) + rest);
    ReadUpTo(s, toks, i, t, p, e, FlattenProps(u.props[..k]));
  }

  lemma TokenReplaced(f: Rw, g: Rw, toks: seq<Token>, j: int, e: int, t: Token)
    requires 0 <= j <= e <= |toks| && Ordered(f) && Run(BlockOf(f), toks) && !t.Fin?
    requires TokenSpliced(f, g, Off(toks, j), Off(toks, e) - Off(toks, j), t)
    ensures Ordered(g) && StringsOf(g) == StringsOf(f) && Run(BlockOf(g), toks[..j] + [t] + toks[e..])
  {
    var n: Block :| Spliced(f, g, Off(toks, j), Off(toks, e) - Off(toks, j), n) && |n| == Size(t) && Holds(n, 0, t);
    TokenLaid(n, t);
    SplicedRun(f, g, toks, j, e, n, [t]);
  }

  lemma SetFoundReads(b: Block, s: seq<byte>, toks: seq<Token>, i: int, t: Tree, p: Path, name: seq<byte>,
      val: seq<byte>, e: int)
    requires NodeAt(s, toks, i, t, p) && NoFin(toks) && PropIndex(SubAt(t, p).props, name) >= 0
    requires e == FindTok(s, toks, i + 1, name) && e >= 0
    requires Run(b, toks[..e] + [Prop(toks[e].nameoff, val)] + toks[e + 1..])
    ensures Reads(b, s, Flatten(SetAt(t, p, name, val)))
  {
    var u, k := SubAt(t, p), PropIndex(SubAt(t, p).props, name);
    FoundParts(s, toks, i, t, p, name);
    PropReads(s, toks[e].nameoff, name, val);
    ReadEdited(b, s, toks[..e], [Prop(toks[e].nameoff, val)], toks[e + 1..],
               Before(t, p) + ([Open(u.name)] + FlattenProps(u.props[..k])), [Property(name, val)],
               FlattenProps(u.props[k + 1..]) + Rest(u, After(t, p)));
    SetCalls(t, p, name, val);
  }

  /** The property was there: its token gets the new value. */
  lemma SetFoundTree(f: Rw, g: Rw, toks: seq<Token>, i: int, t: Tree, p: Path, name: seq<byte>, val: seq<byte>)
    returns (toks': seq<Token>)
    requires TreeAt(f, toks, i, t, p) && PropIndex(SubAt(t, p).props, name) >= 0
    requires var e := FindTok(StringsOf(f), toks, i + 1, name);
      e >= 0 && TokenSpliced(f, g, Off(toks, e), Size(toks[e]), Prop(toks[e].nameoff, val))
    ensures BlobReads(g, SetAt(t, p, name, val)) && Edited(f, g, toks, toks', i)
  {
    var e := FindTok(StringsOf(f), toks, i + 1, name);
    var tok := Prop(toks[e].nameoff, val);
    toks' := toks[..e] + [tok] + toks[e + 1..];
    OffNext(toks, e);
    TokenEdited(f, g, toks, i, e, e + 1, tok);
    SetFoundReads(BlockOf(g), StringsOf(f), toks, i, t, p, name, val, e);
  }

  lemma TokenEdited(f: Rw, g: Rw, toks: seq<Token>, i: int, j: int, e: int, t: Token)
    requires 0 <= i < j <= e <= |toks| && Ordered(f) && Run(BlockOf(f), toks) && !t.Fin?
    requires TokenSpliced(f, g, Off(toks, j), Off(toks, e) - Off(toks, j), t)
    ensures Edited(f, g, toks, toks[..j] + [t] + toks[e..], i)
  {
    TokenReplaced(f, g, toks, j, e, t);
    PrefixKept(toks, j, [t] + toks[e..], i);
    assert toks[..j] + [t] + toks[e..] == toks[..j] + ([t] + toks[e..]);
  }

  // ------------------------------------------------------- a new property

  lemma GetMore(s: seq<byte>, d: seq<byte>, q: int)
    requires GetString(s, q).Text?
    ensures GetString(s + d, q) == GetString(s, q)
  {
    GetIsNamed(s, q);
    NamedAppend(s, d, q, GetString(s, q).text);
    GetNamed(s + d, q, GetString(s, q).text);
  }

  /** More strings behind the table change nothing that was read. */
  lemma {:induction false} ReadMore(s: seq<byte>, d: seq<byte>, toks: seq<Token>)
    requires ReadToks(s, toks).Read?
    ensures ReadToks(s + d, toks) == ReadToks(s, toks)
  {
    if toks != [] {
      if toks[0].Prop? { GetMore(s, d, toks[0].nameoff); }
      ReadMore(s, d, toks[1..]);
    }
  }

  /** The blob once the name is in its strings block. */
  lemma NameReadyTree(f: Rw, h: Rw, q: int, name: seq<byte>, toks: seq<Token>, i: int, t: Tree, p: Path)
    requires TreeAt(f, toks, i, t, p) && NameReady(f, h, q, name) && NoNul(name)
    ensures TreeAt(h, toks, i, t, p) && GetString(StringsOf(h), q) == Text(name)
  {
    var s := StringsOf(f);
    if h == f && Named(s, q, name) {
      GetNamed(s, q, name);
    } else {
      ReadMore(s, name + [0], toks);
      ReadMore(s, name + [0], toks[..i]);
      AppendedName(s, name);
      GetNamed(s + (name + [0]), q, name);
    }
  }

  lemma AppendedName(s: seq<byte>, name: seq<byte>)
    requires NoNul(name)
    ensures Named(s + (name + [0]), |s|, name)
  {
    var t := s + (name + [0]);
    assert t[|s|..|s| + |name|] == name && t[|s| + |name|] == 0;
  }

  /** The property was not there: it becomes the first of the node. */
  lemma SetNewTree(f: Rw, g: Rw, toks: seq<Token>, i: int, t: Tree, p: Path, name: seq<byte>, val: seq<byte>, q: int)
    returns (toks': seq<Token>)
    requires TreeAt(f, toks, i, t, p) && PropIndex(SubAt(t, p).props, name) < 0
    requires GetString(StringsOf(f), q) == Text(name)
    requires TokenSpliced(f, g, Off(toks, i + 1), 0, Prop(q, val))
    ensures BlobReads(g, SetAt(t, p, name, val)) && Edited(f, g, toks, toks', i)
  {
    toks' := toks[..i + 1] + [Prop(q, val)] + toks[i + 1..];
    assert toks'[..i + 1] == toks[..i + 1];
    var s, u := StringsOf(f), SubAt(t, p);
    var rest := Rest(u, After(t, p));
    NodeBody(s, toks, i, t, p);
    assert toks[i + 1..i + 1] == [];
    ReadUpTo(s, toks, i, t, p, i + 1, []);
    TokenReplaced(f, g, toks, i + 1, i + 1, Prop(q, val));
    PropReads(s, q, name, val);
    ReadEdited(BlockOf(g), s, toks[..i + 1], [Prop(q, val)], toks[i + 1..],
               Before(t, p) + ([Open(u.name)] + []), [Property(name, val)], FlattenProps(u.props) + rest);
    SetCalls(t, p, name, val);
  }

  /** fdt_setprop at the node p of the tree that the blob reads as: either the
      blob then reads as the tree with that property set, the node being where it
      was, or there was no room and both blocks are as they were. */
  lemma SetPropTree(f: Rw, g: Rw, toks: seq<Token>, i: int, t: Tree, p: Path, name: seq<byte>, val: seq<byte>, r: int)
    returns (toks': seq<Token>)
    requires TreeAt(f, toks, i, t, p) && NoNul(name) && PropSet(f, g, Off(toks, i), name, val, r)
    ensures r == 0 ==>
      BlobReads(g, SetAt(t, p, name, val)) && TreeAt(g, toks', i, SetAt(t, p, name, val), p)
      && Off(toks', i) == Off(toks, i)
    ensures r != 0 ==> r == -ERR_NOSPACE && SameTree(f, g)
  {
    var s := StringsOf(f);
    SetPropPlace(f, toks, i, t, p, name);
    toks' := toks;
    var e := FindTok(s, toks, i + 1, name);
    if e >= 0 {
      RunAt(BlockOf(f), toks, e);
      if r == 0 {
        toks' := SetFoundTree(f, g, toks, i, t, p, name, val);
        NodeStays(f, g, toks, toks', i, t, p, name, val);
      }
    } else if r == 0 {
      var h, q :| TokenSpliced(h, g, Off(toks, i + 1), 0, Prop(q, val)) && NameReady(f, h, q, name);
      NameReadyTree(f, h, q, name, toks, i, t, p);
      toks' := SetNewTree(h, g, toks, i, t, p, name, val, q);
      NodeStays(h, g, toks, toks', i, t, p, name, val);
    }
  }

  lemma PrefixKept(toks: seq<Token>, e: int, x: seq<Token>, i: int)
    requires 0 <= i < e <= |toks|
    ensures (toks[..e] + x)[..i + 1] == toks[..i + 1]
  {
  }

  /** The new tokens are the old ones up to and with token i. */
  ghost predicate Edited(f: Rw, g: Rw, toks: seq<Token>, toks': seq<Token>, i: int) {
    && Ordered(f) && Ordered(g) && StringsOf(g) == StringsOf(f) && Run(BlockOf(g), toks')
    && 0 <= i < |toks| && i < |toks'| && toks'[..i + 1] == toks[..i + 1]
  }

  lemma {:induction false} ReplacedAt(t: Tree, p: Path, u: Tree)
    requires ValidPath(t, p)
    ensures var v := ReplaceAt(t, p, u); ValidPath(v, p) && SubAt(v, p) == u && Before(v, p) == Before(t, p)
    decreases |p|
  {
    if p != [] {
      var c, k := t.children, p[0];
      var d := c[k := ReplaceAt(c[k], p[1..], u)];
      ReplacedAt(c[k], p[1..], u);
      assert d[..k] == c[..k];
    }
  }

  lemma NodeStays(f: Rw, g: Rw, toks: seq<Token>, toks': seq<Token>, i: int, t: Tree, p: Path, name: seq<byte>,
      val: seq<byte>)
    requires TreeAt(f, toks, i, t, p) && Edited(f, g, toks, toks', i) && BlobReads(g, SetAt(t, p, name, val))
    ensures TreeAt(g, toks', i, SetAt(t, p, name, val), p) && Off(toks', i) == Off(toks, i)
  {
    var u := SubAt(t, p);
    ReplacedAt(t, p, u.(props := PutIn(u.props, name, val)));
    assert toks'[..i] == toks'[..i + 1][..i] == toks[..i + 1][..i] == toks[..i];
    assert toks'[i] == toks'[..i + 1][i] == toks[i];
    RunReads(BlockOf(g), StringsOf(g), toks');
    ReadsIs(BlockOf(g), StringsOf(g), Flatten(SetAt(t, p, name, val)));
  }

  /** Where fdt_setprop finds the property or puts it. */
  lemma SetPropPlace(f: Rw, toks: seq<Token>, i: int, t: Tree, p: Path, name: seq<byte>)
    requires TreeAt(f, toks, i, t, p)
    ensures var e := FindTok(StringsOf(f), toks, i + 1, name);
      && (e >= 0 <==> PropIndex(SubAt(t, p).props, name) >= 0) && -1 <= e < |toks|
      && GetProp(BlockOf(f), StringsOf(f), Off(toks, i), name) == FoundOffset(toks, e)
    ensures CheckNode(BlockOf(f), Off(toks, i)) == Off(toks, i + 1)
    ensures PaddedInside(BlockOf(f), StringsOf(f), Off(toks, i), name)
  {
    var s, u := StringsOf(f), SubAt(t, p);
    RunAt(BlockOf(f), toks, i);
    NodeBody(s, toks, i, t, p);
    RestFirst(u, After(t, p));
    PieceTail(s, toks, i + 1, FlattenProps(u.props) + Rest(u, After(t, p)));
    FindReads(s, toks, i + 1, u.props, Rest(u, After(t, p)), name);
    GetPropFinds(BlockOf(f), s, toks, i, name);
    var e := FindTok(s, toks, i + 1, name);
    if e >= 0 { RunAt(BlockOf(f), toks, e); }
  }

  /** Every other node keeps its name, properties and place. */
  lemma {:induction false} SetAtOther(t: Tree, p: Path, u: Tree, q: Path)
    requires ValidPath(t, p) && ValidPath(t, q) && u.name == SubAt(t, p).name && u.children == SubAt(t, p).children
    ensures var v := ReplaceAt(t, p, u);
      ValidPath(v, q) && SubAt(v, q).name == SubAt(t, q).name && (q != p ==> SubAt(v, q).props == SubAt(t, q).props)
    decreases |q|
  {
    if p != [] && q != [] {
      if p[0] == q[0] {
        SetAtOther(t.children[p[0]], p[1..], u, q[1..]);
        assert q[1..] == p[1..] ==> [q[0]] + q[1..] == [p[0]] + p[1..];
        assert q == [q[0]] + q[1..] && p == [p[0]] + p[1..];
      }
    }
  }

  // ---------------------------------------------------- reading a property

  /** What fdt_getprop_namelen (lib/libfdt/fdt_ro.c:456-472) gives: the value of a
      property, or why there is none. */
  datatype Value = Missing(err: int) | Found(val: seq<byte>)

  function GetValue(b: Block, s: seq<byte>, node: int, name: seq<byte>): Value {
    var o := GetProp(b, s, node, name);
    if o < 0 then Missing(o) else Found(TokenAt(b, o).val)
  }

  /** fdt_getprop on the blob gives v. */
  ghost predicate Gives(f: Rw, node: int, name: seq<byte>, v: Value)
    requires Ordered(f)
  {
    GetValue(BlockOf(f), StringsOf(f), node, name) == v
  }

  /** The value in the tree. */
  function ValueIn(ps: seq<(seq<byte>, seq<byte>)>, name: seq<byte>): Value {
    var k := PropIndex(ps, name);
    if k < 0 then Missing(-ERR_NOTFOUND) else Found(ps[k].1)
  }

  /** fdt_getprop at the node p: the value of the first property of that name in
      the tree, or FDT_ERR_NOTFOUND. */
  lemma GetPropTree(f: Rw, toks: seq<Token>, i: int, t: Tree, p: Path, name: seq<byte>)
    requires TreeAt(f, toks, i, t, p)
    ensures Gives(f, Off(toks, i), name, ValueIn(SubAt(t, p).props, name))
  {
    var s, u := StringsOf(f), SubAt(t, p);
    SetPropPlace(f, toks, i, t, p, name);
    NodeBody(s, toks, i, t, p);
    RestFirst(u, After(t, p));
    PieceTail(s, toks, i + 1, FlattenProps(u.props) + Rest(u, After(t, p)));
    FindReads(s, toks, i + 1, u.props, Rest(u, After(t, p)), name);
    var e := FindTok(s, toks, i + 1, name);
    if e >= 0 {
      RunAt(BlockOf(f), toks, e);
      OffGrows(toks, 0, e);
    }
  }

  lemma EntryOf(t: Tree, q: Path)
    requires ValidPath(t, q)
    ensures var es, n := Flatten(t), |Before(t, q)|;
      n < |es| && es[n] == Open(SubAt(t, q).name) && es[..n] == Before(t, q)
  {
    var b, tail := Before(t, q), Flatten(SubAt(t, q)) + After(t, q);
    AroundNode(t, q);
    TreeShape(SubAt(t, q), After(t, q));
    assert Flatten(t) == b + tail;
    assert (b + tail)[|b|] == tail[0] && (b + tail)[..|b|] == b;
  }

  /** Every node of the tree is at some token. */
  lemma NodeExists(s: seq<byte>, toks: seq<Token>, t: Tree, q: Path) returns (j: int)
    requires ReadToks(s, toks) == Read(Flatten(t)) && ValidPath(t, q)
    ensures NodeAt(s, toks, j, t, q)
  {
    var es, n := Flatten(t), |Before(t, q)|;
    EntryOf(t, q);
    assert toks[0..] == toks;
    PieceTail(s, toks, 0, es);
    j := TokenOf(s, toks, 0, es, n);
    assert toks[0..j] == toks[..j];
  }

  /** The token that reads as entry n. */
  lemma {:induction false} TokenOf(s: seq<byte>, toks: seq<Token>, a: int, es: seq<Entry>, n: int) returns (j: int)
    requires 0 <= a <= |toks| && Piece(s, toks, a, |toks|, es) && 0 <= n < |es|
    ensures a <= j < |toks| && Piece(s, toks, a, j, es[..n]) && ReadOne(s, toks[j]) == Read([es[n]])
    decreases |toks| - a
  {
    PieceTail(s, toks, a, es);
    var y, tail := PieceFirst(s, toks, a, es);
    if n < |y| {
      j := a;
      PieceNil(s, toks, a);
      assert es[..0] == [] && y == [es[0]];
    } else {
      j := TokenOf(s, toks, a + 1, tail, n - |y|);
      PieceCons(s, toks, a, j, y, tail[..n - |y|]);
      assert es[..n] == y + tail[..n - |y|];
    }
  }

  /** fdt_setprop, then fdt_getprop: at that node and name the new value, at any
      other node or name what was there before. */
  lemma SetThenGetAny(f: Rw, g: Rw, toks: seq<Token>, toks': seq<Token>, i: int, t: Tree, p: Path, name: seq<byte>,
      val: seq<byte>,
                      q: Path, other: seq<byte>) returns (j: int, j': int, v: Value)
    requires TreeAt(f, toks, i, t, p) && TreeAt(g, toks', i, SetAt(t, p, name, val), p) && ValidPath(t, q)
    ensures TreeAt(f, toks, j, t, q) && TreeAt(g, toks', j', SetAt(t, p, name, val), q)
    ensures Gives(f, Off(toks, j), other, v)
    ensures Gives(g, Off(toks', j'), other, if q == p && other == name then Found(val) else v)
  {
    var u, t' := SubAt(t, p), SetAt(t, p, name, val);
    SetAtOther(t, p, u.(props := PutIn(u.props, name, val)), q);
    ReplacedAt(t, p, u.(props := PutIn(u.props, name, val)));
    j := NodeExists(StringsOf(f), toks, t, q);
    j' := NodeExists(StringsOf(g), toks', t', q);
    v := ValueIn(SubAt(t, q).props, other);
    GetPropTree(f, toks, j, t, q, other);
    GetPropTree(g, toks', j', t', q, other);
    PutInLookup(u.props, name, val, other);
  }

  /** The bytes by which the blob grows when the property is set: the difference of
      the padded values, or a whole property and its name if that is new. */
  ghost function SetGrowth(s: seq<byte>, ps: seq<(seq<byte>, seq<byte>)>, name: seq<byte>, val: seq<byte>): int {
    match ValueIn(ps, name)
    case Found(was) => Align4(|val|) - Align4(|was|)
    case Missing(_) => 12 + Align4(|val|) + if exists q :: Named(s, q, name) then 0 else |name| + 1
  }

  /** The token of the property that will be set has the length it has in the tree. */
  lemma SetVerdict(f: Rw, toks: seq<Token>, i: int, t: Tree, p: Path, name: seq<byte>)
    requires TreeAt(f, toks, i, t, p)
    ensures var o, v := GetProp(BlockOf(f), StringsOf(f), Off(toks, i), name), ValueIn(SubAt(t, p).props, name);
      if v.Missing? then o == -ERR_NOTFOUND
      else o >= 0 && TokenAt(BlockOf(f), o).Prop? && TokenAt(BlockOf(f), o).val == v.val
  {
    var s, u := StringsOf(f), SubAt(t, p);
    SetPropPlace(f, toks, i, t, p, name);
    NodeBody(s, toks, i, t, p);
    RestFirst(u, After(t, p));
    PieceTail(s, toks, i + 1, FlattenProps(u.props) + Rest(u, After(t, p)));
    FindReads(s, toks, i + 1, u.props, Rest(u, After(t, p)), name);
    var e := FindTok(s, toks, i + 1, name);
    if e >= 0 {
      RunAt(BlockOf(f), toks, e);
      OffGrows(toks, 0, e);
    }
  }

  /** fdt_setprop and fdt_getprop, one after the other, on a blob. */
  method SetThenGet(rw: RwTree, node: int, name: seq<byte>, val: seq<byte>, ghost toks: seq<Token>, ghost i: int,
      ghost t: Tree, ghost p: Path)
      returns (r: int, v: Value)
    requires TreeAt(rw.View(), toks, i, t, p) && NoNul(name) && |val| <= INT_MAX && node == Off(toks, i)
    modifies rw, rw.buf
    ensures r == if DataSize(old(rw.View())) + SetGrowth(StringsOf(old(rw.View())), SubAt(t, p).props, name, val)
                    <= old(rw.View()).totalsize then 0 else -ERR_NOSPACE
    ensures r != 0 ==> SameTree(old(rw.View()), rw.View())
    ensures r == 0 ==> BlobReads(rw.View(), SetAt(t, p, name, val)) && v == Found(val)
  {
    v := Missing(0);
    ghost var f := rw.View();
    SetPropPlace(f, toks, i, t, p, name);
    SetVerdict(f, toks, i, t, p, name);
    r := rw.SetProp(node, name, val);
    ghost var g := rw.View();
    ghost var toks' := SetPropTree(f, g, toks, i, t, p, name, val, r);
    if r == 0 {
      SetValue(g, toks', i, t, p, name, val);
      v := GetValue(rw.Block(), rw.Strings(), node, name);
    }
  }

  lemma SetValue(g: Rw, toks': seq<Token>, i: int, t: Tree, p: Path, name: seq<byte>, val: seq<byte>)
    requires ValidPath(t, p) && TreeAt(g, toks', i, SetAt(t, p, name, val), p)
    ensures Gives(g, Off(toks', i), name, Found(val))
  {
    var u := SubAt(t, p);
    ReplacedAt(t, p, u.(props := PutIn(u.props, name, val)));
    GetPropTree(g, toks', i, SetAt(t, p, name, val), p, name);
    PutInLookup(u.props, name, val, name);
  }
}
