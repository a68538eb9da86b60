/** Trees and the runs of tokens that read as them: nodes by path, what is in
    front of a node, behind it, and the tree without it. */
module FdtTrees {
  import opened Bytes
  import opened FdtTags
  import opened FdtStream
  import opened FdtWalk
  import opened FdtEdit

  // ------------------------------------------------------------ node paths

  /** Child numbers from the root down. */
  type Path = seq<nat>

  predicate ValidPath(t: Tree, p: Path)
    decreases |p|
  {
    p == [] || (p[0] < |t.children| && ValidPath(t.children[p[0]], p[1..]))
  }

  function SubAt(t: Tree, p: Path): Tree
    requires ValidPath(t, p)
    decreases |p|
  {
    if p == [] then t else SubAt(t.children[p[0]], p[1..])
  }

  /** The tree without the node at p. */
  function RemoveAt(t: Tree, p: Path): Tree
    requires ValidPath(t, p) && p != []
    decreases |p|
  {
    var c := t.children;
    if |p| == 1 then t.(children := c[..p[0]] + c[p[0] + 1..])
    else t.(children := c[p[0] := RemoveAt(c[p[0]], p[1..])])
  }

  /** What is written before the node at p, and after it. */
  function Before(t: Tree, p: Path): seq<Entry>
    requires ValidPath(t, p)
    decreases |p|
  {
    if p == [] then []
    else [Open(t.name)] + FlattenProps(t.props) + FlattenAll(t.children[..p[0]]) + Before(t.children[p[0]], p[1..])
  }

  function After(t: Tree, p: Path): seq<Entry>
    requires ValidPath(t, p)
    decreases |p|
  {
    if p == [] then [] else After(t.children[p[0]], p[1..]) + FlattenAll(t.children[p[0] + 1..]) + [Close]
  }

  lemma {:induction false} FlattenAppend(a: seq<Tree>, c: seq<Tree>)
    ensures FlattenAll(a + c) == FlattenAll(a) + FlattenAll(c)
  {
    if a == [] {
      assert a + c == c;
    } else {
      assert (a + c)[0] == a[0] && (a + c)[1..] == a[1..] + c;
      FlattenAppend(a[1..], c);
    }
  }

  lemma FlattenAt(c: seq<Tree>, k: nat)
    requires k < |c|
    ensures FlattenAll(c) == FlattenAll(c[..k]) + Flatten(c[k]) + FlattenAll(c[k + 1..])
  {
    assert c == c[..k] + c[k..];
    FlattenAppend(c[..k], c[k..]);
    assert c[k..][0] == c[k] && c[k..][1..] == c[k + 1..];
  }

  lemma Around<T>(o: seq<T>, ps: seq<T>, l: seq<T>, x: seq<T>, r: seq<T>, c: seq<T>, b: seq<T>, m: seq<T>, a: seq<T>)
    requires x == b + m + a
    ensures o + ps + (l + x + r) + c == (o + ps + l + b) + m + (a + r + c)
  {
  }

  lemma OneLevel(t: Tree, p: Path)
    requires ValidPath(t, p) && p != []
    ensures var c, k, q := t.children, p[0], p[1..];
      && Before(t, p) == [Open(t.name)] + FlattenProps(t.props) + FlattenAll(c[..k]) + Before(c[k], q)
      && After(t, p) == After(c[k], q) + FlattenAll(c[k + 1..]) + [Close]
  {
  }

  /** One level of Before and After. */
  lemma AroundChild(t: Tree, p: Path, m: seq<Entry>)
    requires ValidPath(t, p) && p != []
    ensures var c, k, q := t.children, p[0], p[1..];
      var x := Before(c[k], q) + m + After(c[k], q);
      [Open(t.name)] + FlattenProps(t.props) + (FlattenAll(c[..k]) + x + FlattenAll(c[k + 1..])) + [Close]
      == Before(t, p) + m + After(t, p)
  {
    var c, k, q := t.children, p[0], p[1..];
    var x := Before(c[k], q) + m + After(c[k], q);
    OneLevel(t, p);
    Around([Open(t.name)], FlattenProps(t.props), FlattenAll(c[..k]), x, FlattenAll(c[k + 1..]), [Close],
      Before(c[k], q), m, After(c[k], q));
  }

  lemma Reassociate<T>(a: seq<T>, b: seq<T>, c: seq<T>)
    ensures a + b + c == a + (b + c)
  {
  }

  /** The calls around a node. */
  lemma {:induction false} AroundNode(t: Tree, p: Path)
    requires ValidPath(t, p)
    ensures Flatten(t) == Before(t, p) + Flatten(SubAt(t, p)) + After(t, p)
    decreases |p|
  {
    if p != [] {
      FlattenAt(t.children, p[0]);
      AroundNode(t.children[p[0]], p[1..]);
      AroundChild(t, p, Flatten(SubAt(t, p)));
    }
  }

  /** The tree with another node at p. */
  function ReplaceAt(t: Tree, p: Path, u: Tree): Tree
    requires ValidPath(t, p)
    decreases |p|
  {
    if p == [] then u else t.(children := t.children[p[0] := ReplaceAt(t.children[p[0]], p[1..], u)])
  }

  lemma {:induction false} ReplacedNode(t: Tree, p: Path, u: Tree)
    requires ValidPath(t, p)
    ensures Flatten(ReplaceAt(t, p, u)) == Before(t, p) + Flatten(u) + After(t, p)
    decreases |p|
  {
    if p != [] {
      var c, k := t.children, p[0];
      var d := c[k := ReplaceAt(c[k], p[1..], u)];
      FlattenAt(d, k);
      assert d[..k] == c[..k] && d[k + 1..] == c[k + 1..];
      ReplacedNode(c[k], p[1..], u);
      AroundChild(t, p, Flatten(u));
    }
  }

  lemma RemoveChild(t: Tree, p: Path)
    requires ValidPath(t, p) && |p| == 1
    ensures Flatten(RemoveAt(t, p)) == Before(t, p) + [] + After(t, p)
  {
    var c, k := t.children, p[0];
    FlattenAppend(c[..k], c[k + 1..]);
    AroundChild(t, p, []);
    assert FlattenAll(c[..k]) + ([] + [] + []) == FlattenAll(c[..k]);
    assert Before(c[k], p[1..]) == [] && After(c[k], p[1..]) == [];
  }

  /** The calls of the tree without the node. */
  lemma {:induction false} WithoutNode(t: Tree, p: Path)
    requires ValidPath(t, p) && p != []
    ensures Flatten(RemoveAt(t, p)) == Before(t, p) + [] + After(t, p)
    decreases |p|
  {
    if |p| == 1 {
      RemoveChild(t, p);
    } else {
      var c, k := t.children, p[0];
      var d := c[k := RemoveAt(c[k], p[1..])];
      FlattenAt(d, k);
      assert d[..k] == c[..k] && d[k + 1..] == c[k + 1..];
      WithoutNode(c[k], p[1..]);
      AroundChild(t, p, []);
    }
  }

  // ------------------------------------------------------- ends of subtrees

  function Nest(e: Entry): int {
    if e.Open? then 1 else if e.Close? then -1 else 0
  }

  /** Length up to the Close of the d-th open node, -1 if there is none. */
  function CloseAt(es: seq<Entry>, d: int): (r: int)
    ensures -1 <= r <= |es|
  {
    if es == [] then -1
    else if es[0].Close? && d == 1 then 1
    else var r := CloseAt(es[1..], d + Nest(es[0])); if r < 0 then -1 else r + 1
  }

  function Plus(n: int, r: int): int { if r < 0 then -1 else n + r }

  lemma CloseCons(e: Entry, es: seq<Entry>, d: int)
    requires !(e.Close? && d == 1)
    ensures CloseAt([e] + es, d) == Plus(1, CloseAt(es, d + Nest(e)))
  {
    assert ([e] + es)[1..] == es;
  }

  lemma {:induction false} CloseProps(ps: seq<(seq<byte>, seq<byte>)>, rest: seq<Entry>, d: int)
    ensures CloseAt(FlattenProps(ps) + rest, d) == Plus(|FlattenProps(ps)|, CloseAt(rest, d))
  {
    if ps == [] {
      assert FlattenProps(ps) + rest == rest;
    } else {
      var e := Property(ps[0].0, ps[0].1);
      assert FlattenProps(ps) + rest == [e] + (FlattenProps(ps[1..]) + rest);
      CloseCons(e, FlattenProps(ps[1..]) + rest, d);
      CloseProps(ps[1..], rest, d);
    }
  }

  /** A forest closes what it opens. */
  lemma {:induction false} CloseForest(ts: seq<Tree>, rest: seq<Entry>, d: int)
    requires d >= 1
    ensures CloseAt(FlattenAll(ts) + rest, d) == Plus(|FlattenAll(ts)|, CloseAt(rest, d))
    decreases ts, 0
  {
    if ts == [] {
      assert FlattenAll(ts) + rest == rest;
    } else {
      assert FlattenAll(ts) + rest == Flatten(ts[0]) + (FlattenAll(ts[1..]) + rest);
      CloseTree(ts[0], FlattenAll(ts[1..]) + rest, d);
      CloseForest(ts[1..], rest, d);
    }
  }

  lemma TreeShape(t: Tree, rest: seq<Entry>)
    ensures Flatten(t) + rest == [Open(t.name)] + (FlattenProps(t.props) + (FlattenAll(t.children) + ([Close] + rest)))
    ensures |Flatten(t)| == 2 + |FlattenProps(t.props)| + |FlattenAll(t.children)|
  {
  }

  /** Inside the node, up to what follows its Close. */
  lemma {:induction false} CloseBody(t: Tree, rest: seq<Entry>, d: int)
    requires d >= 1
    ensures var body := FlattenProps(t.props) + (FlattenAll(t.children) + ([Close] + rest));
      CloseAt(body, d) == Plus(|FlattenProps(t.props)| + |FlattenAll(t.children)|, CloseAt([Close] + rest, d))
    decreases t, 0
  {
    CloseProps(t.props, FlattenAll(t.children) + ([Close] + rest), d);
    CloseForest(t.children, [Close] + rest, d);
  }

  lemma {:induction false} CloseTree(t: Tree, rest: seq<Entry>, d: int)
    requires d >= 1
    ensures CloseAt(Flatten(t) + rest, d) == Plus(|Flatten(t)|, CloseAt(rest, d))
    decreases t, 1
  {
    TreeShape(t, rest);
    var body := FlattenProps(t.props) + (FlattenAll(t.children) + ([Close] + rest));
    CloseCons(Open(t.name), body, d);
    CloseBody(t, rest, d + 1);
    CloseCons(Close, rest, d + 1);
  }

  /** A node ends where its own Close is. */
  lemma CloseSelf(t: Tree, rest: seq<Entry>)
    ensures (Flatten(t) + rest)[0] == Open(t.name)
    ensures CloseAt((Flatten(t) + rest)[1..], 1) == |Flatten(t)| - 1
  {
    TreeShape(t, rest);
    var body := FlattenProps(t.props) + (FlattenAll(t.children) + ([Close] + rest));
    assert (Flatten(t) + rest)[1..] == body;
    CloseBody(t, rest, 1);
    assert CloseAt([Close] + rest, 1) == 1;
  }

  /** Reading with the first token apart. */
  lemma ReadFirst(s: seq<byte>, toks: seq<Token>, i: int, e: int)
    requires 0 <= i < e <= |toks|
    ensures ReadToks(s, toks[i..e]) == Join(ReadOne(s, toks[i]), ReadToks(s, toks[i + 1..e]))
  {
    assert toks[i..e][0] == toks[i] && toks[i..e][1..] == toks[i + 1..e];
  }

  lemma EndSimStep(s: seq<byte>, toks: seq<Token>, i: int, d: int, es: seq<Entry>, rest: seq<Entry>)
    requires 0 <= i < |toks| && ReadToks(s, toks[i..]) == Read(es) && ReadToks(s, toks[i + 1..]) == Read(rest)
    ensures ReadOne(s, toks[i]).Read? && es == ReadOne(s, toks[i]).entries + rest
    ensures var r := CloseAt(rest, d + Delta(toks[i]));
      !(toks[i].EndNode? && d == 1) ==> CloseAt(es, d) == Plus(|ReadOne(s, toks[i]).entries|, r)
  {
    assert toks[i..|toks|] == toks[i..] && toks[i + 1..|toks|] == toks[i + 1..];
    ReadFirst(s, toks, i, |toks|);
    var x := ReadOne(s, toks[i]).entries;
    if toks[i].Begin? || toks[i].EndNode? || toks[i].Prop? {
      assert es == [x[0]] + rest;
      if !(toks[i].EndNode? && d == 1) { CloseCons(x[0], rest, d); }
    } else {
      assert x + rest == rest;
    }
  }

  ghost predicate Simulates(s: seq<byte>, toks: seq<Token>, i: int, d: int, es: seq<Entry>)
    requires 0 <= i <= |toks|
  {
    var r, e := CloseAt(es, d), EndFrom(toks, i, d);
    && (r < 0 <==> e < 0)
    && (r >= 0 ==> ReadToks(s, toks[i..e]) == Read(es[..r]) && ReadToks(s, toks[e..]) == Read(es[r..]))
  }

  lemma ReadRest(s: seq<byte>, toks: seq<Token>, i: int) returns (rest: seq<Entry>)
    requires 0 <= i < |toks| && ReadToks(s, toks[i..]).Read?
    ensures ReadToks(s, toks[i + 1..]) == Read(rest)
  {
    assert toks[i..|toks|] == toks[i..] && toks[i + 1..|toks|] == toks[i + 1..];
    ReadFirst(s, toks, i, |toks|);
    rest := ReadToks(s, toks[i + 1..]).entries;
  }

  /** The end found on tokens is the end of what they read as. */
  lemma {:induction false} EndSim(s: seq<byte>, toks: seq<Token>, i: int, d: int, es: seq<Entry>)
    requires 0 <= i <= |toks| && ReadToks(s, toks[i..]) == Read(es)
    ensures Simulates(s, toks, i, d, es)
    decreases |toks| - i
  {
    if i < |toks| {
      var rest := ReadRest(s, toks, i);
      EndSimStep(s, toks, i, d, es, rest);
      if toks[i].EndNode? && d == 1 {
        ReadFirst(s, toks, i, i + 1);
        assert toks[i + 1..i + 1] == [];
        assert es[..1] == [Close] && es[1..] == rest;
      } else {
        EndSim(s, toks, i + 1, d + Delta(toks[i]), rest);
        SimMore(s, toks, i, d, es, rest);
      }
    }
  }

  lemma SimMore(s: seq<byte>, toks: seq<Token>, i: int, d: int, es: seq<Entry>, rest: seq<Entry>)
    requires 0 <= i < |toks| && !(toks[i].EndNode? && d == 1) && Simulates(s, toks, i + 1, d + Delta(toks[i]), rest)
    requires ReadOne(s, toks[i]).Read? && es == ReadOne(s, toks[i]).entries + rest
    requires CloseAt(es, d) == Plus(|ReadOne(s, toks[i]).entries|, CloseAt(rest, d + Delta(toks[i])))
    ensures Simulates(s, toks, i, d, es)
  {
    var r, e, x := CloseAt(rest, d + Delta(toks[i])), EndFrom(toks, i + 1, d + Delta(toks[i])),
      ReadOne(s, toks[i]).entries;
    if r >= 0 {
      ReadFirst(s, toks, i, e);
      assert es[..|x| + r] == x + rest[..r] && es[|x| + r..] == rest[r..];
    }
  }

  // ------------------------------------------------------- nodes of a tree

  /** The tokens read as the tree t, and token i opens its node at p. */
  ghost predicate NodeAt(s: seq<byte>, toks: seq<Token>, i: int, t: Tree, p: Path) {
    && ValidPath(t, p) && 0 <= i < |toks| && toks[i].Begin?
    && ReadToks(s, toks) == Read(Flatten(t)) && ReadToks(s, toks[..i]) == Read(Before(t, p))
  }

  lemma PrefixCancel<T>(a: seq<T>, x: seq<T>, y: seq<T>)
    requires a + x == a + y
    ensures x == y
  {
    assert (a + x)[|a|..] == x && (a + y)[|a|..] == y;
  }

  lemma NodeReads(s: seq<byte>, toks: seq<Token>, i: int, t: Tree, p: Path)
    requires NodeAt(s, toks, i, t, p)
    ensures ReadToks(s, toks[i..]) == Read(Flatten(SubAt(t, p)) + After(t, p))
  {
    assert toks == toks[..i] + toks[i..];
    ReadAppend(s, toks[..i], toks[i..]);
    AroundNode(t, p);
    var m := Flatten(SubAt(t, p)) + After(t, p);
    assert Flatten(t) == Before(t, p) + m;
    PrefixCancel(Before(t, p), ReadToks(s, toks[i..]).entries, m);
  }

  /** The node is the tokens from i up to the end that the walk finds. */
  lemma NodeSegment(s: seq<byte>, toks: seq<Token>, i: int, t: Tree, p: Path) returns (e: int)
    requires NodeAt(s, toks, i, t, p)
    ensures e == EndFrom(toks, i + 1, 1) && i < e <= |toks|
    ensures ReadToks(s, toks[i..e]) == Read(Flatten(SubAt(t, p))) && ReadToks(s, toks[e..]) == Read(After(t, p))
  {
    var u, rest := SubAt(t, p), After(t, p);
    var es := Flatten(u) + rest;
    NodeReads(s, toks, i, t, p);
    var tail := ReadRest(s, toks, i);
    EndSimStep(s, toks, i, 1, es, tail);
    CloseSelf(u, rest);
    assert es == [Open(toks[i].name)] + tail && tail == es[1..];
    EndSim(s, toks, i + 1, 1, tail);
    e := EndFrom(toks, i + 1, 1);
    ReadFirst(s, toks, i, e);
    var n := |Flatten(u)| - 1;
    assert [es[0]] + tail[..n] == Flatten(u) && tail[n..] == rest;
  }

  // ------------------------------------------------------ pieces of a run

  /** The tokens from j up to e read as x. */
  ghost predicate Piece(s: seq<byte>, toks: seq<Token>, j: int, e: int, x: seq<Entry>) {
    0 <= j <= e <= |toks| && ReadToks(s, toks[j..e]) == Read(x)
  }

  lemma PieceTail(s: seq<byte>, toks: seq<Token>, j: int, x: seq<Entry>)
    requires 0 <= j <= |toks|
    ensures Piece(s, toks, j, |toks|, x) <==> ReadToks(s, toks[j..]) == Read(x)
  {
    assert toks[j..|toks|] == toks[j..];
  }

  lemma PieceNil(s: seq<byte>, toks: seq<Token>, j: int)
    requires 0 <= j <= |toks|
    ensures Piece(s, toks, j, j, [])
  {
    assert toks[j..j] == [];
  }

  lemma PieceCons(s: seq<byte>, toks: seq<Token>, j: int, e: int, y: seq<Entry>, x: seq<Entry>)
    requires 0 <= j < |toks| && ReadOne(s, toks[j]) == Read(y) && Piece(s, toks, j + 1, e, x)
    ensures Piece(s, toks, j, e, y + x)
  {
    ReadFirst(s, toks, j, e);
  }

  /** One token off the front of a run. */
  lemma PieceFirst(s: seq<byte>, toks: seq<Token>, j: int, es: seq<Entry>) returns (y: seq<Entry>, tail: seq<Entry>)
    requires 0 <= j < |toks| && Piece(s, toks, j, |toks|, es)
    ensures ReadOne(s, toks[j]) == Read(y) && es == y + tail && Piece(s, toks, j + 1, |toks|, tail)
  {
    PieceTail(s, toks, j, es);
    tail := ReadRest(s, toks, j);
    EndSimStep(s, toks, j, 1, es, tail);
    y := ReadOne(s, toks[j]).entries;
    PieceTail(s, toks, j + 1, tail);
  }

  /** A node's calls: its properties, then the rest. */
  ghost function Rest(u: Tree, after: seq<Entry>): seq<Entry> {
    FlattenAll(u.children) + ([Close] + after)
  }

  lemma RestFirst(u: Tree, after: seq<Entry>)
    ensures Rest(u, after) != [] && !Rest(u, after)[0].Property?
  {
    FirstNotProperty(u.children, [Close] + after);
  }

  lemma NodeBody(s: seq<byte>, toks: seq<Token>, i: int, t: Tree, p: Path)
    requires NodeAt(s, toks, i, t, p)
    ensures var u := SubAt(t, p);
      toks[i] == Begin(u.name) && ReadToks(s, toks[i + 1..]) == Read(FlattenProps(u.props) + Rest(u, After(t, p)))
  {
    var u, after := SubAt(t, p), After(t, p);
    NodeReads(s, toks, i, t, p);
    TreeShape(u, after);
    var tail := ReadRest(s, toks, i);
    EndSimStep(s, toks, i, 1, Flatten(u) + after, tail);
    var body := FlattenProps(u.props) + Rest(u, after);
    assert [Open(toks[i].name)] + tail == [Open(u.name)] + body;
    assert ([Open(toks[i].name)] + tail)[0] == ([Open(u.name)] + body)[0];
    assert ([Open(toks[i].name)] + tail)[1..] == ([Open(u.name)] + body)[1..];
  }

  /** Reading up to a token inside the node. */
  lemma ReadUpTo(s: seq<byte>, toks: seq<Token>, i: int, t: Tree, p: Path, k: int, x: seq<Entry>)
    requires NodeAt(s, toks, i, t, p) && toks[i] == Begin(SubAt(t, p).name) && i < k <= |toks|
    requires ReadToks(s, toks[i + 1..k]) == Read(x)
    ensures ReadToks(s, toks[..k]) == Read(Before(t, p) + ([Open(SubAt(t, p).name)] + x))
  {
    assert toks[..k] == toks[..i] + toks[i..k];
    ReadAppend(s, toks[..i], toks[i..k]);
    ReadFirst(s, toks, i, k);
  }
}
