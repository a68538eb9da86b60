/** Which of the blocks that pass fdt_check_full read as a tree. */
module FdtNesting {
  import opened Bytes
  import opened FdtTags
  import opened FdtStrings
  import opened FdtStream
  import opened FdtWalk
  import opened FdtEdit
  import opened FdtTrees
  import opened FdtSearch
  import opened FdtRwTrees
  import opened FdtShape
  import opened FdtKids

  // --------------------------------------------------------- order in a node

  /** Every property comes right behind the begin of a node or another property,
      NOPs apart. `open` says whether one could stand at the front. */
  predicate PropsFirst(toks: seq<Token>, open: bool) {
    toks == [] ||
    ((toks[0].Prop? ==> open) && PropsFirst(toks[1..], if Real(toks[0]) then !toks[0].EndNode? else open))
  }

  predicate Tidy(es: seq<Entry>, open: bool) {
    es == [] || ((es[0].Property? ==> open) && Tidy(es[1..], !es[0].Close?))
  }

  lemma {:induction false} TidyTokens(s: seq<byte>, toks: seq<Token>, open: bool)
    requires ReadToks(s, toks).Read?
    ensures Tidy(ReadToks(s, toks).entries, open) <==> PropsFirst(toks, open)
  {
    if toks != [] {
      var x, rest := ReadOne(s, toks[0]), ReadToks(s, toks[1..]).entries;
      var next := if Real(toks[0]) then !toks[0].EndNode? else open;
      TidyTokens(s, toks[1..], next);
      if Real(toks[0]) {
        assert (x.entries + rest)[1..] == rest;
      } else {
        assert x.entries + rest == rest;
      }
    }
  }

  lemma TidyCons(e: Entry, es: seq<Entry>, open: bool)
    ensures Tidy([e] + es, open) <==> (e.Property? ==> open) && Tidy(es, !e.Close?)
  {
    assert ([e] + es)[1..] == es;
  }

  lemma {:induction false} TidyProps(ps: Props, rest: seq<Entry>)
    requires rest != [] && !rest[0].Property?
    ensures Tidy(FlattenProps(ps) + rest, true) <==> Tidy(rest, false)
  {
    if ps == [] {
      assert FlattenProps(ps) + rest == rest;
    } else {
      BodyTail(ps, rest);
      TidyCons(Property(ps[0].0, ps[0].1), FlattenProps(ps[1..]) + rest, true);
      TidyProps(ps[1..], rest);
    }
  }

  /** The calls of a tree are in order. */
  lemma {:induction false} TidyTree(t: Tree, rest: seq<Entry>, open: bool)
    requires Tidy(rest, false)
    ensures Tidy(Flatten(t) + rest, open)
    decreases t, 1
  {
    TreeShape(t, rest);
    TidyCons(Close, rest, false);
    TidyForest(t.children, [Close] + rest);
    FirstNotProperty(t.children, [Close] + rest);
    var body := FlattenAll(t.children) + ([Close] + rest);
    TidyProps(t.props, body);
    TidyCons(Open(t.name), FlattenProps(t.props) + body, open);
  }

  lemma {:induction false} TidyForest(ts: seq<Tree>, rest: seq<Entry>)
    requires Tidy(rest, false)
    ensures Tidy(FlattenAll(ts) + rest, false)
    decreases ts, 0
  {
    if ts == [] {
      assert FlattenAll(ts) + rest == rest;
    } else {
      TidyForest(ts[1..], rest);
      TidyTree(ts[0], FlattenAll(ts[1..]) + rest, false);
      assert FlattenAll(ts) + rest == Flatten(ts[0]) + (FlattenAll(ts[1..]) + rest);
    }
  }

  // ---------------------------------------------------------------- nesting

  function Sum(es: seq<Entry>): int {
    if es == [] then 0 else Nest(es[0]) + Sum(es[1..])
  }

  lemma {:induction false} SumAppend(a: seq<Entry>, c: seq<Entry>)
    ensures Sum(a + c) == Sum(a) + Sum(c)
  {
    if a == [] {
      assert a + c == c;
    } else {
      assert (a + c)[0] == a[0] && (a + c)[1..] == a[1..] + c;
      SumAppend(a[1..], c);
    }
  }

  lemma {:induction false} SumProps(ps: Props)
    ensures Sum(FlattenProps(ps)) == 0
  {
    if ps != [] { SumProps(ps[1..]); }
  }

  lemma {:induction false} SumForest(ts: seq<Tree>)
    ensures Sum(FlattenAll(ts)) == 0
    decreases ts, 0
  {
    if ts != [] {
      SumTree(ts[0]);
      SumForest(ts[1..]);
      SumAppend(Flatten(ts[0]), FlattenAll(ts[1..]));
    }
  }

  lemma {:induction false} SumTree(t: Tree)
    ensures Sum(Flatten(t)) == 0
    decreases t, 1
  {
    SumProps(t.props);
    SumForest(t.children);
    var o, ps, ks := [Open(t.name)], FlattenProps(t.props), FlattenAll(t.children);
    SumAppend(o + ps + ks, [Close]);
    SumAppend(o + ps, ks);
    SumAppend(o, ps);
    assert o[1..] == [] && [Close][1..] == [];
  }

  /** The nesting of tokens is that of what they read as. */
  lemma {:induction false} DepthReads(s: seq<byte>, toks: seq<Token>, i: int)
    requires 0 <= i <= |toks| && ReadToks(s, toks).Read?
    ensures ReadToks(s, toks[..i]).Read? && Sum(ReadToks(s, toks[..i]).entries) == Depth(toks, i)
    decreases i
  {
    assert toks == toks[..i] + toks[i..];
    ReadAppend(s, toks[..i], toks[i..]);
    if i > 0 {
      DepthReads(s, toks, i - 1);
      assert toks[..i] == toks[..i - 1] + [toks[i - 1]];
      ReadAppend(s, toks[..i - 1], [toks[i - 1]]);
      assert [toks[i - 1]][1..] == [];
      var x := ReadToks(s, [toks[i - 1]]).entries;
      SumAppend(ReadToks(s, toks[..i - 1]).entries, x);
      assert Sum(x) == Delta(toks[i - 1]);
    }
  }

  // ---------------------------------------------------------------- parsing

  lemma {:induction false} TakeProps(es: seq<Entry>) returns (ps: Props, rest: seq<Entry>)
    requires Tidy(es, true)
    ensures es == FlattenProps(ps) + rest && Tidy(rest, false) && (rest != [] ==> !rest[0].Property?)
    decreases |es|
  {
    if es == [] || !es[0].Property? {
      ps, rest := [], es;
      assert FlattenProps([]) + es == es;
    } else {
      var qs: Props;
      qs, rest := TakeProps(es[1..]);
      ps := [(es[0].name, es[0].val)] + qs;
      assert ps[1..] == qs;
      assert es == [es[0]] + es[1..];
      assert FlattenProps(ps) == [es[0]] + FlattenProps(qs);
    }
  }

  /** Calls in order are trees, up to an end that closes none of them. */
  lemma {:induction false} TakeForest(es: seq<Entry>) returns (ts: seq<Tree>, rest: seq<Entry>)
    requires Tidy(es, false) && Sum(es) <= 0
    ensures es == FlattenAll(ts) + rest && (rest != [] ==> rest[0].Close?) && Tidy(rest, false)
    decreases |es|, 1
  {
    if es == [] || es[0].Close? {
      ts, rest := [], es;
      assert FlattenAll([]) + es == es;
    } else {
      var t, tail := TakeTree(es);
      var us: seq<Tree>;
      us, rest := TakeForest(tail);
      ts := [t] + us;
      assert ts[1..] == us;
      Reassociate(Flatten(t), FlattenAll(us), rest);
    }
  }

  lemma {:induction false} TakeTree(es: seq<Entry>) returns (t: Tree, tail: seq<Entry>)
    requires es != [] && es[0].Open? && Tidy(es, false) && Sum(es) <= 0
    ensures es == Flatten(t) + tail && Tidy(tail, false) && Sum(tail) == Sum(es) && |tail| < |es|
    decreases |es|, 0
  {
    var ps, body := TakeProps(es[1..]);
    SumProps(ps);
    SumAppend(FlattenProps(ps), body);
    var ks, behind := TakeForest(body);
    SumForest(ks);
    SumAppend(FlattenAll(ks), behind);
    assert behind != [];
    TidyAfterClose(behind);
    t, tail := Node(es[0].name, ps, ks), behind[1..];
    Regrouped(es, t, body, behind);
  }

  lemma TidyAfterClose(es: seq<Entry>)
    requires es != [] && es[0].Close? && Tidy(es, false)
    ensures Tidy(es[1..], false) && Sum(es) == Sum(es[1..]) - 1
  {
  }

  lemma Regrouped(es: seq<Entry>, t: Tree, body: seq<Entry>, behind: seq<Entry>)
    requires es != [] && es[0] == Open(t.name) && es[1..] == FlattenProps(t.props) + body
    requires body == FlattenAll(t.children) + behind && behind != [] && behind[0] == Close
    ensures es == Flatten(t) + behind[1..]
  {
    TreeShape(t, behind[1..]);
    assert es == [es[0]] + es[1..] && behind == [behind[0]] + behind[1..];
  }

  // ------------------------------------------------------------- one tree

  /** Where a first tree ends, nothing follows. */
  lemma OnlyOne(s: seq<byte>, toks: seq<Token>, t: Tree, rest: seq<Entry>)
    requires ProperFrom(s, toks, 0) && ReadToks(s, toks) == Read(Flatten(t) + rest)
    ensures rest == []
  {
    var es, n := Flatten(t) + rest, |Flatten(t)|;
    assert toks[0..] == toks;
    PieceTail(s, toks, 0, es);
    TreeShape(t, rest);
    LastCloses(t, rest);
    var k := TokenOf(s, toks, 0, es, n - 1);
    assert toks[0..k] == toks[..k];
    DepthReads(s, toks, k);
    SumTree(t);
    assert es[..n] == Flatten(t) && es[..n] == es[..n - 1] + [Close];
    SumAppend(es[..n - 1], [Close]);
    assert [Close][1..] == [];
    assert Closes(toks, k);
    if rest != [] {
      var j := TokenOf(s, toks, 0, es, n);
      TokensInOrder(s, toks, k, j, es, n);
    }
  }

  lemma LastCloses(t: Tree, rest: seq<Entry>)
    ensures (Flatten(t) + rest)[|Flatten(t)| - 1] == Close
  {
  }

  lemma ReadsNoLess(s: seq<byte>, toks: seq<Token>, j: int, k: int)
    requires 0 <= j <= k <= |toks| && ReadToks(s, toks[0..j]).Read? && ReadToks(s, toks[0..k]).Read?
    ensures |ReadToks(s, toks[0..j]).entries| <= |ReadToks(s, toks[0..k]).entries|
  {
    assert toks[0..k] == toks[0..j] + toks[j..k];
    ReadAppend(s, toks[0..j], toks[j..k]);
  }

  /** A later entry is at a later token, which is no NOP. */
  lemma TokensInOrder(s: seq<byte>, toks: seq<Token>, k: int, j: int, es: seq<Entry>, n: int)
    requires 0 <= k < |toks| && 0 <= j < |toks| && 0 < n < |es| && Piece(s, toks, 0, k, es[..n - 1])
    requires Piece(s, toks, 0, j, es[..n])
    requires ReadOne(s, toks[j]) == Read([es[n]])
    ensures k < j && !toks[j].Nop?
  {
    if j <= k { ReadsNoLess(s, toks, j, k); }
  }

  ghost predicate IsTree(s: seq<byte>, toks: seq<Token>) {
    exists t :: Whole(s, toks, t)
  }

  predicate HasNode(toks: seq<Token>) {
    exists i :: 0 <= i < |toks| && toks[i].Begin?
  }

  /** A block that passes the check reads as a tree exactly if it has a node and
      every node has its properties before its subnodes. */
  lemma TreeExactly(s: seq<byte>, toks: seq<Token>)
    requires ProperFrom(s, toks, 0) && NoFin(toks)
    ensures IsTree(s, toks) <==> HasNode(toks) && PropsFirst(toks, false)
  {
    AllReadable(s, toks, 0);
    assert toks[0..] == toks;
    var es := ReadToks(s, toks).entries;
    TidyTokens(s, toks, false);
    if IsTree(s, toks) {
      var t :| Whole(s, toks, t);
      assert Tidy([], false) && Flatten(t) + [] == Flatten(t);
      TidyTree(t, [], false);
      var i := NodeExists(s, toks, t, []);
      assert toks[i].Begin?;
    }
    if HasNode(toks) && PropsFirst(toks, false) {
      var i :| 0 <= i < |toks| && toks[i].Begin?;
      DepthReads(s, toks, |toks|);
      assert toks[..|toks|] == toks;
      var ts, rest := TakeForest(es);
      NotEmpty(s, toks, i);
      if ts == [] {
        FirstIsClose(s, toks, es);
      }
      assert es == Flatten(ts[0]) + (FlattenAll(ts[1..]) + rest);
      OnlyOne(s, toks, ts[0], FlattenAll(ts[1..]) + rest);
      assert es == Flatten(ts[0]) + [] == Flatten(ts[0]);
      assert Whole(s, toks, ts[0]);
    }
  }

  lemma {:induction false} AllReadable(s: seq<byte>, toks: seq<Token>, i: int)
    requires ProperFrom(s, toks, 0) && 0 <= i <= |toks|
    ensures ReadToks(s, toks[i..]).Read?
    decreases |toks| - i
  {
    if i < |toks| {
      assert Fine(s, toks, i);
      AllReadable(s, toks, i + 1);
      assert toks[i..][0] == toks[i] && toks[i..][1..] == toks[i + 1..];
    }
  }

  lemma NotEmpty(s: seq<byte>, toks: seq<Token>, i: int)
    requires 0 <= i < |toks| && toks[i].Begin? && ReadToks(s, toks).Read?
    ensures ReadToks(s, toks).entries != []
  {
    assert toks == toks[..i] + toks[i..];
    ReadAppend(s, toks[..i], toks[i..]);
    assert toks[i..][0] == toks[i];
  }

  /** The first call does not close anything. */
  lemma FirstIsClose(s: seq<byte>, toks: seq<Token>, es: seq<Entry>)
    requires ProperFrom(s, toks, 0) && ReadToks(s, toks) == Read(es) && es != []
    ensures !es[0].Close?
  {
    assert toks[0..] == toks;
    PieceTail(s, toks, 0, es);
    var k := TokenOf(s, toks, 0, es, 0);
    assert toks[0..k] == toks[..k];
    DepthReads(s, toks, k);
    assert es[..0] == [];
    assert Depth(toks, k + 1) == Delta(toks[k]);
  }

  /** Its root then has no name. */
  lemma RootNameless(s: seq<byte>, toks: seq<Token>, t: Tree)
    requires ProperFrom(s, toks, 0) && Whole(s, toks, t)
    ensures t.name == []
  {
    var i := NodeExists(s, toks, t, []);
    DepthReads(s, toks, i);
    NodeBody(s, toks, i, t, []);
    assert Fine(s, toks, i);
  }

  /** What a passed check leaves open. */
  lemma CheckedIsTree(b: Block, s: seq<byte>) returns (toks: seq<Token>)
    requires |b| <= INT_MAX && CheckFrom(b, s, 0, 0, false) == 0
    ensures Run(b, toks) && ProperFrom(s, toks, 0)
    ensures IsTree(s, toks) <==> HasNode(toks) && PropsFirst(toks, false)
  {
    CheckExact(b, s);
    toks :| Run(b, toks) && ProperFrom(s, toks, 0);
    TreeExactly(s, toks);
  }
}
