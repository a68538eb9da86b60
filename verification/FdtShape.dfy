/** Changing the bytes of property values and nothing else: what stays where it
    is in the blob, and what becomes of the tree that the blob reads as. */
module FdtShape {
  import opened Bytes
  import opened FdtTags
  import opened FdtStrings
  import opened FdtStream
  import opened FdtWalk
  import opened FdtEdit
  import opened FdtTrees
  import opened FdtSearch
  import opened FdtRw
  import opened FdtRwTrees

  type Props = seq<(seq<byte>, seq<byte>)>

  // ------------------------------------------------------ tokens in layout

  /** The token with its value blanked out. */
  function Blank(tok: Token): Token {
    if tok.Prop? then Prop(tok.nameoff, Zeros(|tok.val|)) else tok
  }

  /** Two runs that differ in values only. */
  ghost predicate SameLayout(toks: seq<Token>, us: seq<Token>) {
    |toks| == |us| && forall i {:trigger us[i]} :: 0 <= i < |toks| ==> Blank(us[i]) == Blank(toks[i])
  }

  lemma {:induction false} LayoutOff(toks: seq<Token>, us: seq<Token>, i: int)
    requires SameLayout(toks, us) && 0 <= i <= |toks|
    ensures Off(us, i) == Off(toks, i)
    decreases i
  {
    if i > 0 {
      LayoutOff(toks, us, i - 1);
      OffNext(toks, i - 1);
      OffNext(us, i - 1);
      assert Size(us[i - 1]) == Size(Blank(us[i - 1])) == Size(toks[i - 1]);
    }
  }

  /** Tokens that read as something. */
  predicate Real(tok: Token) { tok.Begin? || tok.EndNode? || tok.Prop? }

  function Reals(toks: seq<Token>): (n: nat) {
    if toks == [] then 0 else (if Real(toks[0]) then 1 else 0) + Reals(toks[1..])
  }

  lemma {:induction false} ReadCount(s: seq<byte>, toks: seq<Token>)
    requires ReadToks(s, toks).Read?
    ensures |ReadToks(s, toks).entries| == Reals(toks)
  {
    if toks != [] { ReadCount(s, toks[1..]); }
  }

  lemma {:induction false} RealsLayout(toks: seq<Token>, us: seq<Token>)
    requires SameLayout(toks, us)
    ensures Reals(us) == Reals(toks)
  {
    if toks != [] {
      assert Blank(us[0]) == Blank(toks[0]);
      RealsLayout(toks[1..], us[1..]);
    }
  }

  lemma LayoutPrefix(toks: seq<Token>, us: seq<Token>, i: int)
    requires SameLayout(toks, us) && 0 <= i <= |toks|
    ensures Reals(us[..i]) == Reals(toks[..i])
  {
    RealsLayout(toks[..i], us[..i]);
  }

  // ------------------------------------------------------- trees in shape

  function BlankProps(ps: Props): (r: Props)
    ensures |r| == |ps| && forall i :: 0 <= i < |ps| ==> r[i] == (ps[i].0, Zeros(|ps[i].1|))
  {
    seq(|ps|, i requires 0 <= i < |ps| => (ps[i].0, Zeros(|ps[i].1|)))
  }

  /** The tree with its values blanked out. */
  function Shape(t: Tree): (r: Tree)
    decreases t, 1
  {
    Node(t.name, BlankProps(t.props), ShapeAll(t.children))
  }

  function ShapeAll(ts: seq<Tree>): (r: seq<Tree>)
    ensures |r| == |ts|
    decreases ts, 0
  {
    if ts == [] then [] else [Shape(ts[0])] + ShapeAll(ts[1..])
  }

  lemma {:induction false} ShapeAllAt(ts: seq<Tree>, i: int)
    requires 0 <= i < |ts|
    ensures ShapeAll(ts)[i] == Shape(ts[i])
  {
    if i > 0 { ShapeAllAt(ts[1..], i - 1); }
  }

  lemma ShapeParts(t: Tree, u: Tree)
    requires Shape(u) == Shape(t)
    ensures u.name == t.name && BlankProps(u.props) == BlankProps(t.props)
    ensures ShapeAll(u.children) == ShapeAll(t.children)
  {
  }

  lemma ShapeFrom(t: Tree, u: Tree)
    requires u.name == t.name && BlankProps(u.props) == BlankProps(t.props)
    requires ShapeAll(u.children) == ShapeAll(t.children)
    ensures Shape(u) == Shape(t)
  {
  }

  /** Nodes of trees of one shape correspond. */
  lemma {:induction false} ShapeAt(t: Tree, u: Tree, p: Path)
    requires Shape(u) == Shape(t) && ValidPath(t, p)
    ensures ValidPath(u, p) && Shape(SubAt(u, p)) == Shape(SubAt(t, p))
    decreases |p|
  {
    if p != [] {
      ShapeKids(t, u);
      assert Shape(u.children[p[0]]) == Shape(t.children[p[0]]);
      ShapeAt(t.children[p[0]], u.children[p[0]], p[1..]);
    }
  }

  /** What a node and its counterpart have in common. */
  lemma ShapeProps(t: Tree, u: Tree)
    requires Shape(u) == Shape(t)
    ensures u.name == t.name && |u.props| == |t.props|
    ensures forall i {:trigger u.props[i]} ::
      0 <= i < |t.props| ==> u.props[i].0 == t.props[i].0 && |u.props[i].1| == |t.props[i].1|
  {
    ShapeParts(t, u);
    BlankSame(t.props, u.props);
  }

  lemma ShapeKids(t: Tree, u: Tree)
    requires Shape(u) == Shape(t)
    ensures |u.children| == |t.children|
    ensures forall i {:trigger u.children[i]} :: 0 <= i < |t.children| ==> Shape(u.children[i]) == Shape(t.children[i])
  {
    ShapeParts(t, u);
    ChildrenSame(t.children, u.children);
  }

  lemma BlankSame(ps: Props, qs: Props)
    requires BlankProps(qs) == BlankProps(ps)
    ensures |qs| == |ps| && forall i {:trigger qs[i]} :: 0 <= i < |ps| ==> qs[i].0 == ps[i].0 && |qs[i].1| == |ps[i].1|
  {
    assert |BlankProps(qs)| == |BlankProps(ps)|;
    forall i {:trigger qs[i]} | 0 <= i < |ps|
      ensures qs[i].0 == ps[i].0 && |qs[i].1| == |ps[i].1|
    {
      assert BlankProps(ps)[i] == BlankProps(qs)[i];
    }
  }

  lemma ChildrenSame(ts: seq<Tree>, us: seq<Tree>)
    requires ShapeAll(us) == ShapeAll(ts)
    ensures |us| == |ts| && forall i {:trigger us[i]} :: 0 <= i < |ts| ==> Shape(us[i]) == Shape(ts[i])
  {
    assert |ShapeAll(us)| == |ShapeAll(ts)|;
    forall i {:trigger us[i]} | 0 <= i < |ts|
      ensures Shape(us[i]) == Shape(ts[i])
    {
      ShapeAllAt(ts, i);
      ShapeAllAt(us, i);
    }
  }

  lemma {:induction false} PropsLength(ps: Props)
    ensures |FlattenProps(ps)| == |ps|
  {
    if ps != [] { PropsLength(ps[1..]); }
  }

  lemma {:induction false} ShapeLength(t: Tree, u: Tree)
    requires Shape(u) == Shape(t)
    ensures |Flatten(u)| == |Flatten(t)|
    decreases t, 1
  {
    ShapeProps(t, u);
    ShapeKids(t, u);
    PropsLength(t.props);
    PropsLength(u.props);
    ShapeLengths(t.children, u.children);
  }

  lemma {:induction false} ShapeLengths(ts: seq<Tree>, us: seq<Tree>)
    requires |us| == |ts| && forall i {:trigger us[i]} :: 0 <= i < |ts| ==> Shape(us[i]) == Shape(ts[i])
    ensures |FlattenAll(us)| == |FlattenAll(ts)|
    decreases ts, 0
  {
    if ts != [] {
      assert Shape(us[0]) == Shape(ts[0]);
      ShapeLength(ts[0], us[0]);
      ShapeLengths(ts[1..], us[1..]);
    }
  }

  lemma {:induction false} ShapeBefore(t: Tree, u: Tree, p: Path)
    requires Shape(u) == Shape(t) && ValidPath(t, p) && ValidPath(u, p)
    ensures |Before(u, p)| == |Before(t, p)|
    decreases |p|
  {
    if p != [] {
      ShapeProps(t, u);
      ShapeKids(t, u);
      PropsLength(t.props);
      PropsLength(u.props);
      ShapeLengths(t.children[..p[0]], u.children[..p[0]]);
      assert Shape(u.children[p[0]]) == Shape(t.children[p[0]]);
      ShapeBefore(t.children[p[0]], u.children[p[0]], p[1..]);
    }
  }

  // ----------------------------------------------- where nodes and properties are

  ghost predicate Whole(s: seq<byte>, toks: seq<Token>, t: Tree) {
    ReadToks(s, toks) == Read(Flatten(t))
  }

  /** Reading up to a token gives the calls up to as many. */
  lemma ReadPrefix(s: seq<byte>, toks: seq<Token>, t: Tree, e: int)
    requires Whole(s, toks, t) && 0 <= e <= |toks|
    ensures Reals(toks[..e]) <= |Flatten(t)| && ReadToks(s, toks[..e]) == Read(Flatten(t)[..Reals(toks[..e])])
    ensures ReadToks(s, toks[e..]) == Read(Flatten(t)[Reals(toks[..e])..])
  {
    assert toks == toks[..e] + toks[e..];
    ReadAppend(s, toks[..e], toks[e..]);
    ReadCount(s, toks[..e]);
    var a, c := ReadToks(s, toks[..e]).entries, ReadToks(s, toks[e..]).entries;
    assert Flatten(t) == a + c;
    assert (a + c)[..|a|] == a && (a + c)[|a|..] == c;
  }

  /** A node is the token with as many in front of it as there are calls. */
  lemma NodeCount(s: seq<byte>, toks: seq<Token>, i: int, t: Tree, p: Path)
    requires 0 <= i < |toks|
    ensures NodeAt(s, toks, i, t, p)
      <==> Whole(s, toks, t) && ValidPath(t, p) && toks[i].Begin? && Reals(toks[..i]) == |Before(t, p)|
  {
    if Whole(s, toks, t) && ValidPath(t, p) {
      ReadPrefix(s, toks, t, i);
      EntryOf(t, p);
    }
  }

  /** A change of values moves no node. */
  lemma NodeStaysPut(s: seq<byte>, toks: seq<Token>, us: seq<Token>, i: int, t: Tree, u: Tree, p: Path)
    requires NodeAt(s, toks, i, t, p) && SameLayout(toks, us) && Shape(u) == Shape(t) && Whole(s, us, u)
    ensures NodeAt(s, us, i, u, p)
  {
    NodeCount(s, toks, i, t, p);
    NodeCount(s, us, i, u, p);
    LayoutPrefix(toks, us, i);
    ShapeAt(t, u, p);
    ShapeBefore(t, u, p);
    assert Blank(us[i]) == Blank(toks[i]);
  }

  /** Token e is property k of the node at p. */
  ghost predicate PropertyAt(s: seq<byte>, toks: seq<Token>, e: int, t: Tree, p: Path, k: int) {
    && Whole(s, toks, t) && ValidPath(t, p) && 0 <= k < |SubAt(t, p).props| && 0 <= e < |toks| && toks[e].Prop?
    && Reals(toks[..e]) == |Before(t, p)| + 1 + k
  }

  lemma PropertyStaysPut(s: seq<byte>, toks: seq<Token>, us: seq<Token>, e: int, t: Tree, u: Tree, p: Path, k: int)
    requires PropertyAt(s, toks, e, t, p, k) && SameLayout(toks, us) && Shape(u) == Shape(t) && Whole(s, us, u)
    ensures PropertyAt(s, us, e, u, p, k)
  {
    LayoutPrefix(toks, us, e);
    ShapeAt(t, u, p);
    ShapeProps(SubAt(t, p), SubAt(u, p));
    ShapeBefore(t, u, p);
    assert Blank(us[e]) == Blank(toks[e]);
  }

  /** The calls around property k. */
  lemma AroundProperty(t: Tree, p: Path, k: int)
    requires ValidPath(t, p) && 0 <= k < |SubAt(t, p).props|
    ensures var u, ps := SubAt(t, p), SubAt(t, p).props;
      var a, c := Before(t, p) + ([Open(u.name)] + FlattenProps(ps[..k])),
        FlattenProps(ps[k + 1..]) + Rest(u, After(t, p));
      Flatten(t) == a + [Property(ps[k].0, ps[k].1)] + c && |a| == |Before(t, p)| + 1 + k
  {
    var u, ps := SubAt(t, p), SubAt(t, p).props;
    var rest := Rest(u, After(t, p));
    AroundNode(t, p);
    PutParts(ps, k, ps[k].0, ps[k].1, rest);
    assert ps[k := ps[k]] == ps;
    Reassembled(t, p, u, FlattenProps(ps[..k]), [Property(ps[k].0, ps[k].1)], FlattenProps(ps[k + 1..]) + rest);
    ReplacedSame(t, p);
    PropsLength(ps[..k]);
  }

  lemma {:induction false} ReplacedSame(t: Tree, p: Path)
    requires ValidPath(t, p)
    ensures ReplaceAt(t, p, SubAt(t, p)) == t
    decreases |p|
  {
    if p != [] {
      ReplacedSame(t.children[p[0]], p[1..]);
      assert t.children[p[0] := t.children[p[0]]] == t.children;
    }
  }

  lemma SplitAt<T>(a: seq<T>, x: T, c: seq<T>)
    ensures var w := a + [x] + c; w[|a|] == x && w[..|a|] == a && w[|a|..] == [x] + c && w[|a| + 1..] == c
  {
  }

  /** What a property token says, and what is read in front of it and behind it. */
  lemma PropertyReads(s: seq<byte>, toks: seq<Token>, e: int, t: Tree, p: Path, k: int)
    requires PropertyAt(s, toks, e, t, p, k)
    ensures var u, ps := SubAt(t, p), SubAt(t, p).props;
      && toks[e].val == ps[k].1 && GetString(s, toks[e].nameoff) == Text(ps[k].0)
      && ReadToks(s, toks[..e]) == Read(Before(t, p) + ([Open(u.name)] + FlattenProps(ps[..k])))
      && ReadToks(s, toks[e + 1..]) == Read(FlattenProps(ps[k + 1..]) + Rest(u, After(t, p)))
  {
    var u, ps := SubAt(t, p), SubAt(t, p).props;
    ReadPrefix(s, toks, t, e);
    AroundProperty(t, p, k);
    var x := Property(ps[k].0, ps[k].1);
    var c := FlattenProps(ps[k + 1..]) + Rest(u, After(t, p));
    SplitAt(Before(t, p) + ([Open(u.name)] + FlattenProps(ps[..k])), x, c);
    var tail := ReadRest(s, toks, e);
    assert toks[e..|toks|] == toks[e..] && toks[e + 1..|toks|] == toks[e + 1..];
    ReadFirst(s, toks, e, |toks|);
    ConsEq(ReadOne(s, toks[e]).entries[0], tail, x, c);
  }

  // ------------------------------------------------------- changing a value

  function WithProps(t: Tree, p: Path, ps: Props): Tree
    requires ValidPath(t, p)
  {
    ReplaceAt(t, p, SubAt(t, p).(props := ps))
  }

  function SetVal(t: Tree, p: Path, k: int, val: seq<byte>): Tree
    requires ValidPath(t, p) && 0 <= k < |SubAt(t, p).props|
  {
    WithProps(t, p, SubAt(t, p).props[k := (SubAt(t, p).props[k].0, val)])
  }

  lemma {:induction false} ShapeReplaced(t: Tree, p: Path, u: Tree)
    requires ValidPath(t, p) && Shape(u) == Shape(SubAt(t, p))
    ensures Shape(ReplaceAt(t, p, u)) == Shape(t)
    decreases |p|
  {
    if p != [] {
      var c := t.children;
      var d := c[p[0] := ReplaceAt(c[p[0]], p[1..], u)];
      ShapeReplaced(c[p[0]], p[1..], u);
      ShapeUpdated(c, p[0], d[p[0]]);
      ShapeFrom(t, t.(children := d));
    }
  }

  lemma {:induction false} ShapeUpdated(ts: seq<Tree>, k: int, u: Tree)
    requires 0 <= k < |ts| && Shape(u) == Shape(ts[k])
    ensures ShapeAll(ts[k := u]) == ShapeAll(ts)
  {
    if k > 0 {
      assert ts[k := u][0] == ts[0] && ts[k := u][1..] == ts[1..][k - 1 := u];
      ShapeUpdated(ts[1..], k - 1, u);
    } else {
      assert ts[k := u][1..] == ts[1..];
    }
  }

  lemma ShapeWithProps(t: Tree, p: Path, ps: Props)
    requires ValidPath(t, p) && BlankProps(ps) == BlankProps(SubAt(t, p).props)
    ensures Shape(WithProps(t, p, ps)) == Shape(t)
  {
    ShapeFrom(SubAt(t, p), SubAt(t, p).(props := ps));
    ShapeReplaced(t, p, SubAt(t, p).(props := ps));
  }

  lemma BlankSet(ps: Props, k: int, val: seq<byte>)
    requires 0 <= k < |ps| && |val| == |ps[k].1|
    ensures BlankProps(ps[k := (ps[k].0, val)]) == BlankProps(ps)
  {
  }

  lemma CallsSet(t: Tree, p: Path, k: int, val: seq<byte>)
    requires ValidPath(t, p) && 0 <= k < |SubAt(t, p).props|
    ensures var u, ps := SubAt(t, p), SubAt(t, p).props;
      Before(t, p) + ([Open(u.name)] + FlattenProps(ps[..k])) + [Property(ps[k].0, val)]
        + (FlattenProps(ps[k + 1..]) + Rest(u, After(t, p)))
      == Flatten(SetVal(t, p, k, val))
  {
    var u, ps, rest := SubAt(t, p), SubAt(t, p).props, Rest(SubAt(t, p), After(t, p));
    var v := u.(props := ps[k := (ps[k].0, val)]);
    PutParts(ps, k, ps[k].0, val, rest);
    Reassembled(t, p, v, FlattenProps(ps[..k]), [Property(ps[k].0, val)], FlattenProps(ps[k + 1..]) + rest);
  }

  /** Another value of the same length in the token: the tree with that value. */
  lemma ValueSet(s: seq<byte>, toks: seq<Token>, e: int, t: Tree, p: Path, k: int, val: seq<byte>)
    requires PropertyAt(s, toks, e, t, p, k) && |val| == |toks[e].val|
    ensures var us := toks[e := Prop(toks[e].nameoff, val)];
      Whole(s, us, SetVal(t, p, k, val)) && SameLayout(toks, us) && Shape(SetVal(t, p, k, val)) == Shape(t)
  {
    var u, ps := SubAt(t, p), SubAt(t, p).props;
    var tok := Prop(toks[e].nameoff, val);
    PropertyReads(s, toks, e, t, p, k);
    PropReads(s, toks[e].nameoff, ps[k].0, val);
    ReadThree(s, toks[..e], [tok], toks[e + 1..]);
    assert toks[e := tok] == toks[..e] + [tok] + toks[e + 1..];
    CallsSet(t, p, k, val);
    BlankSet(ps, k, val);
    ShapeWithProps(t, p, ps[k := (ps[k].0, val)]);
  }
}
