/** Shifting the local references of an overlay as it runs, in place
    (lib/libfdt/fdt_overlay.c:201-306). Where the code would store outside the
    property, which it does not test for, these methods stop and say so. */
module FdtRefsRun {
  import opened Bytes
  import opened FdtTags
  import opened FdtStrings
  import opened FdtStream
  import opened FdtWalk
  import opened FdtTrees
  import opened FdtLookup
  import opened FdtSearch
  import opened FdtPath
  import opened FdtRwModel
  import opened FdtRw
  import opened FdtRwTrees
  import opened FdtShape
  import opened FdtKids
  import opened FdtOverlay
  import opened FdtFixups
  import opened FdtOverlayRun

  // ------------------------------------------------------------ one fixup

  lemma {:induction false} OffsetsAt(val: seq<byte>, n: nat)
    requires |val| % 4 == 0
    ensures 4 * |Offsets(val)| == |val|
    ensures n < |Offsets(val)| ==> Offsets(val)[n] == Get32(val, 4 * n)
    decreases |val|
  {
    if val != [] {
      OffsetsAt(val[4..], if n == 0 then 0 else n - 1);
    }
  }

  lemma {:induction false} ShiftOneMore(val: seq<byte>, a: seq<int>, x: int, delta: int)
    requires AllInside(a, |val|) && 0 <= x && x + 4 <= |val|
    ensures AllInside(a + [x], |val|) && ShiftAll(val, a + [x], delta) == ShiftWord(ShiftAll(val, a, delta), x, delta)
    decreases |a|
  {
    if a == [] {
      assert a + [x] == [x] && [x][1..] == [];
    } else {
      assert (a + [x])[0] == a[0] && (a + [x])[1..] == a[1..] + [x];
      ShiftOneMore(ShiftWord(val, a[0], delta), a[1..], x, delta);
    }
  }

  /** The slots so far shifted. */
  ghost predicate ShiftedUpTo(t: Tree, p: Path, k: int, offs: seq<int>, n: int, delta: int, u: Tree)
    requires ValidPath(t, p) && 0 <= k < |SubAt(t, p).props|
  {
    var val := SubAt(t, p).props[k].1;
    0 <= n <= |offs| && AllInside(offs[..n], |val|) && u == SetVal(t, p, k, ShiftAll(val, offs[..n], delta))
  }

  lemma ShiftedStart(t: Tree, p: Path, k: int, offs: seq<int>, delta: int)
    requires ValidPath(t, p) && 0 <= k < |SubAt(t, p).props|
    ensures ShiftedUpTo(t, p, k, offs, 0, delta, t)
  {
    var ps := SubAt(t, p).props;
    assert offs[..0] == [] && ps[k := (ps[k].0, ps[k].1)] == ps;
    ReplacedSame(t, p);
  }

  /** What is in the tree when slot n comes up. */
  lemma ShiftedHere(t: Tree, p: Path, k: int, offs: seq<int>, n: int, delta: int, u: Tree)
    requires ValidPath(t, p) && 0 <= k < |SubAt(t, p).props| && ShiftedUpTo(t, p, k, offs, n, delta, u)
    ensures ValidPath(u, p) && |SubAt(u, p).props| == |SubAt(t, p).props|
    ensures var val := SubAt(t, p).props[k].1; SubAt(u, p).props[k].1 == ShiftAll(val, offs[..n], delta)
  {
    var ps := SubAt(t, p).props;
    var v := SubAt(t, p).(props := ps[k := (ps[k].0, ShiftAll(ps[k].1, offs[..n], delta))]);
    ReplaceTwice(t, p, v, v);
  }

  lemma ShiftedOther(t: Tree, p: Path, k: int, offs: seq<int>, n: int, delta: int, u: Tree, q: Path)
    requires ValidPath(t, p) && 0 <= k < |SubAt(t, p).props| && ShiftedUpTo(t, p, k, offs, n, delta, u)
    requires ValidPath(t, q) && q != p
    ensures ValidPath(u, q) && SubAt(u, q).props == SubAt(t, q).props
  {
    var ps := SubAt(t, p).props;
    SetAtOther(t, p, SubAt(t, p).(props := ps[k := (ps[k].0, ShiftAll(ps[k].1, offs[..n], delta))]), q);
  }

  lemma ShiftedNext(t: Tree, p: Path, k: int, offs: seq<int>, n: int, delta: int, u: Tree)
    requires ValidPath(t, p) && 0 <= k < |SubAt(t, p).props| && ShiftedUpTo(t, p, k, offs, n, delta, u)
    requires n < |offs| && 0 <= offs[n] && offs[n] + 4 <= |SubAt(t, p).props[k].1|
    requires ValidPath(u, p) && |SubAt(u, p).props| == |SubAt(t, p).props|
    requires |SubAt(u, p).props[k].1| == |SubAt(t, p).props[k].1|
    ensures ShiftedUpTo(t, p, k, offs, n + 1, delta, SetVal(u, p, k, ShiftWord(SubAt(u, p).props[k].1, offs[n], delta)))
  {
    var ps := SubAt(t, p).props;
    var val := ps[k].1;
    var cur := ShiftAll(val, offs[..n], delta);
    var v := SubAt(t, p).(props := ps[k := (ps[k].0, cur)]);
    ReplaceTwice(t, p, v, v);
    ShiftOneMore(val, offs[..n], offs[n], delta);
    assert offs[..n + 1] == offs[..n] + [offs[n]];
    var nxt := ShiftWord(cur, offs[n], delta);
    assert v.props[k := (ps[k].0, nxt)] == ps[k := (ps[k].0, nxt)];
    ReplaceTwice(t, p, v, v.(props := ps[k := (ps[k].0, nxt)]));
  }

  lemma ShiftedEnd(t: Tree, p: Path, k: int, fx: (seq<byte>, seq<byte>), delta: int, u: Tree)
    requires ValidPath(t, p) && k == PropIndex(SubAt(t, p).props, fx.0) >= 0 && |fx.1| % 4 == 0
    requires ShiftedUpTo(t, p, k, Offsets(fx.1), |Offsets(fx.1)|, delta, u)
    ensures FixupFollowed(0, false, ShiftProp(SubAt(t, p).props, fx.0, fx.1, delta), t, p, u)
  {
    assert Offsets(fx.1)[..|Offsets(fx.1)|] == Offsets(fx.1);
  }

  /** What following one fixup has come to. */
  ghost predicate FixupFollowed(r: int, stray: bool, out: Outcome<Props>, t: Tree, p: Path, u: Tree)
    requires ValidPath(t, p)
  {
    match out
    case Failed(e) => !stray && r == e
    case Stray => stray
    case Done(ps) => !stray && r == 0 && u == WithProps(t, p, ps)
  }

  ghost predicate NodeFollowed(r: int, stray: bool, out: Outcome<Tree>, u: Tree) {
    match out
    case Failed(e) => !stray && r == e
    case Stray => stray
    case Done(v) => !stray && r == 0 && u == v
  }

  /** The stores for one fixup (lines 235-245): the property at `to` is property k
      of the node p, the fixup at `from` property j of the node q. */
  method FollowWords(rw: RwTree, to: int, len: int, from: int, count: int, delta: int,
                     ghost toks: seq<Token>, ghost d: int, ghost e: int, ghost t: Tree, ghost p: Path, ghost k: int,
                       ghost q: Path, ghost j: int)
      returns (stray: bool, ghost us: seq<Token>, ghost u: Tree)
    requires Stands(rw.View(), toks, t) && 0 <= delta < U32 && p != q
    requires PropertyAt(StringsOf(rw.View()), toks, d, t, p, k) && to == Off(toks, d) && len == |SubAt(t, p).props[k].1|
    requires PropertyAt(StringsOf(rw.View()), toks, e, t, q, j) && from == Off(toks, e)
    requires |SubAt(t, q).props[j].1| == 4 * count
    modifies rw.buf
    ensures Rewritten(old(rw.View()), toks, t, rw.View(), us, u)
    ensures var offs := Offsets(SubAt(t, q).props[j].1);
      if stray then !AllInside(offs, len) else ShiftedUpTo(t, p, k, offs, |offs|, delta, u)
  {
    ghost var f, fix := rw.View(), SubAt(t, q).props[j].1;
    ghost var offs := Offsets(fix);
    us, u, stray := toks, t, false;
    ShiftedStart(t, p, k, offs, delta);
    OffsetsAt(fix, 0);
    var n := 0;
    while n < count
      invariant 0 <= n <= count == |offs| && Rewritten(f, toks, t, rw.View(), us, u)
      invariant ShiftedUpTo(t, p, k, offs, n, delta, u) && !stray
    {
      ghost var g, ms, m := rw.View(), us, u;
      PropertyThere(f, toks, t, g, ms, m, d, p, k);
      PropertyThere(f, toks, t, g, ms, m, e, q, j);
      stray, us, u := FollowWord(rw, to, len, from, n, delta, ms, d, e, m, t, p, k, q, j);
      RewrittenTwice(f, toks, t, g, ms, m, rw.View(), us, u);
      if stray {
        return;
      }
      n := n + 1;
    }
  }

  /** Word n of the fixup: the blob reads as m, in which the first n slots have
      been shifted. */
  method FollowWord(rw: RwTree, to: int, len: int, from: int, n: int, delta: int, ghost toks: seq<Token>, ghost d: int,
      ghost e: int, ghost m: Tree,
                    ghost t: Tree, ghost p: Path, ghost k: int, ghost q: Path, ghost j: int)
      returns (stray: bool, ghost us: seq<Token>, ghost u: Tree)
    requires Stands(rw.View(), toks, m) && 0 <= delta < U32 && p != q && ValidPath(t, p) && ValidPath(t, q)
    requires 0 <= k < |SubAt(t, p).props| && 0 <= j < |SubAt(t, q).props| && len == |SubAt(t, p).props[k].1|
    requires |SubAt(t, q).props[j].1| % 4 == 0 && 0 <= n < |Offsets(SubAt(t, q).props[j].1)|
    requires ShiftedUpTo(t, p, k, Offsets(SubAt(t, q).props[j].1), n, delta, m)
    requires PropertyAt(StringsOf(rw.View()), toks, d, m, p, k) && to == Off(toks, d)
    requires PropertyAt(StringsOf(rw.View()), toks, e, m, q, j) && from == Off(toks, e)
    modifies rw.buf
    ensures Rewritten(old(rw.View()), toks, m, rw.View(), us, u)
    ensures var offs := Offsets(SubAt(t, q).props[j].1);
      if stray then offs[n] + 4 > len else ShiftedUpTo(t, p, k, offs, n + 1, delta, u)
  {
    ghost var fix := SubAt(t, q).props[j].1;
    ghost var offs := Offsets(fix);
    us, u, stray := toks, m, false;
    ShiftedHere(t, p, k, offs, n, delta, m);
    ShiftedOther(t, p, k, offs, n, delta, m, q);
    OffsetsAt(fix, n);
    var o := PropertyWord(rw, from, 4 * n, toks, e, m, q, j);
    if o + 4 > len {
      stray := true;
      return;
    }
    us := ShiftInPlace(rw, to, o, delta, toks, d, m, p, k);
    u := SetVal(m, p, k, ShiftWord(SubAt(m, p).props[k].1, o, delta));
    ShiftedNext(t, p, k, offs, n, delta, m);
  }

  /** fdt32_st(refp, fdt32_ld(refp) + delta) */
  method ShiftInPlace(rw: RwTree, to: int, o: int, delta: int, ghost toks: seq<Token>, ghost d: int, ghost m: Tree,
      ghost p: Path, ghost k: int)
      returns (ghost us: seq<Token>)
    requires Stands(rw.View(), toks, m) && PropertyAt(StringsOf(rw.View()), toks, d, m, p, k) && to == Off(toks, d)
    requires 0 <= o && o + 4 <= |SubAt(m, p).props[k].1|
    modifies rw.buf
    ensures Rewritten(old(rw.View()), toks, m, rw.View(), us,
      SetVal(m, p, k, ShiftWord(SubAt(m, p).props[k].1, o, delta)))
  {
    var w := PropertyWord(rw, to, o, toks, d, m, p, k);
    us := StoreWord(rw, to, o, (w + delta) % U32, toks, d, m, p, k);
  }

  /** One property of the fixup node (lines 218-245). */
  method FollowFixup(rw: RwTree, node: int, from: int, delta: int,
                     ghost toks: seq<Token>, ghost i: int, ghost e: int, ghost t: Tree, ghost p: Path, ghost q: Path,
                       ghost j: int)
      returns (r: int, stray: bool, ghost us: seq<Token>, ghost u: Tree)
    requires Stands(rw.View(), toks, t) && 0 <= delta < U32 && p != q
    requires NodeAt(StringsOf(rw.View()), toks, i, t, p) && node == Off(toks, i)
    requires PropertyAt(StringsOf(rw.View()), toks, e, t, q, j) && from == Off(toks, e)
    modifies rw.buf
    ensures Rewritten(old(rw.View()), toks, t, rw.View(), us, u)
    ensures var fx := SubAt(t, q).props[j];
      FixupFollowed(r, stray, ShiftProp(SubAt(t, p).props, fx.0, fx.1, delta), t, p, u)
  {
    us, u, stray := toks, t, false;
    ghost var fx := SubAt(t, q).props[j];
    var size := PropertyLength(rw, from, toks, e, t, q, j);
    var name := PropertyName(rw, from, toks, e, t, q, j);
    if size % 4 != 0 {
      r := -ERR_BADOVERLAY;
      return;
    }
    var to: int;
    ghost var d: int;
    to, d := FindProperty(rw, node, name, toks, i, t, p);
    if to < 0 {
      r := if to == -ERR_NOTFOUND then -ERR_BADOVERLAY else to;
      return;
    }
    ghost var k := PropIndex(SubAt(t, p).props, name);
    var len := PropertyLength(rw, to, toks, d, t, p, k);
    stray, us, u := FollowWords(rw, to, len, from, size / 4, delta, toks, d, e, t, p, k, q, j);
    r := 0;
    if !stray {
      ShiftedEnd(t, p, k, fx, delta, u);
    }
  }

  /** The name of a property, by fdt_getprop_by_offset. */
  method PropertyName(rw: RwTree, o: int, ghost toks: seq<Token>, ghost e: int, ghost t: Tree, ghost p: Path,
      ghost k: int)
      returns (name: seq<byte>)
    requires Stands(rw.View(), toks, t) && PropertyAt(StringsOf(rw.View()), toks, e, t, p, k) && o == Off(toks, e)
    ensures name == SubAt(t, p).props[k].0
  {
    PropertyFields(rw.View(), toks, e, t, p, k);
    name := GetString(rw.Strings(), Get32(rw.Block(), o + 8)).text;
  }

  // ------------------------------------------------------------ one node

  method FirstProperty(rw: RwTree, node: int, ghost toks: seq<Token>, ghost i: int, ghost t: Tree, ghost p: Path)
    returns (o: int, ghost e: int)
    requires Stands(rw.View(), toks, t) && NodeAt(StringsOf(rw.View()), toks, i, t, p) && node == Off(toks, i)
    ensures if SubAt(t, p).props == [] then o < 0
            else 0 <= e < |toks| && o == Off(toks, e) && PropertyAt(StringsOf(rw.View()), toks, e, t, p, 0)
  {
    e := FirstPropTree(BlockOf(rw.View()), StringsOf(rw.View()), toks, i, t, p);
    o := FirstProp(rw.Block(), node);
  }

  method NextProperty(rw: RwTree, prev: int, ghost toks: seq<Token>, ghost d: int, ghost t: Tree, ghost p: Path,
      ghost k: int)
      returns (o: int, ghost e: int)
    requires Stands(rw.View(), toks, t) && PropertyAt(StringsOf(rw.View()), toks, d, t, p, k) && prev == Off(toks, d)
    ensures if k + 1 == |SubAt(t, p).props| then o < 0
            else 0 <= e < |toks| && o == Off(toks, e) && PropertyAt(StringsOf(rw.View()), toks, e, t, p, k + 1)
  {
    e := NextPropTree(BlockOf(rw.View()), StringsOf(rw.View()), toks, d, t, p, k);
    o := PropAfter(rw.Block(), prev);
  }

  /** The fixups of the node q followed so far. */
  ghost predicate FollowedUpTo(t: Tree, p: Path, q: Path, j: int, delta: int, u: Tree)
    requires ValidPath(t, p) && ValidPath(t, q)
  {
    && ValidPath(u, p) && ValidPath(u, q) && |SubAt(u, q).props| == |SubAt(t, q).props| && 0 <= j <= |SubAt(t, q).props|
    && FixProps(t, p, q, 0, delta) == FixProps(u, p, q, j, delta)
  }

  lemma FollowedNext(t: Tree, p: Path, q: Path, j: int, delta: int, m: Tree, r: int, stray: bool, u: Tree)
    requires ValidPath(t, p) && ValidPath(t, q) && FollowedUpTo(t, p, q, j, delta, m) && j < |SubAt(t, q).props|
    requires var fx := SubAt(m, q).props[j];
      FixupFollowed(r, stray, ShiftProp(SubAt(m, p).props, fx.0, fx.1, delta), m, p, u)
    ensures if stray || r != 0 then NodeFollowed(r, stray, FixProps(t, p, q, 0, delta), u)
      else FollowedUpTo(t, p, q, j + 1, delta, u)
  {
    PropStep(m, p, q, j, delta);
  }

  /** The loop over the properties of the fixup node (lines 210-246). */
  method FollowProps(rw: RwTree, node: int, fixnode: int, delta: int,
                     ghost toks: seq<Token>, ghost i: int, ghost x: int, ghost t: Tree, ghost p: Path, ghost q: Path)
      returns (r: int, stray: bool, ghost us: seq<Token>, ghost u: Tree)
    requires Stands(rw.View(), toks, t) && 0 <= delta < U32 && p != q
    requires NodeAt(StringsOf(rw.View()), toks, i, t, p) && node == Off(toks, i)
    requires NodeAt(StringsOf(rw.View()), toks, x, t, q) && fixnode == Off(toks, x)
    modifies rw.buf
    ensures Rewritten(old(rw.View()), toks, t, rw.View(), us, u)
    ensures NodeFollowed(r, stray, FixProps(t, p, q, 0, delta), u)
  {
    ghost var f, n, j := rw.View(), |SubAt(t, q).props|, 0;
    us, u, r, stray := toks, t, 0, false;
    var from: int;
    ghost var e: int;
    from, e := FirstProperty(rw, fixnode, toks, x, t, q);
    while from >= 0
      invariant Rewritten(f, toks, t, rw.View(), us, u) && r == 0 && !stray
      invariant FollowedUpTo(t, p, q, j, delta, u)
      invariant if from < 0 then j == n
        else 0 <= e < |us| && from == Off(us, e) && PropertyAt(StringsOf(rw.View()), us, e, u, q, j)
      decreases n - j
    {
      ghost var g, ms, m := rw.View(), us, u;
      NodeThere(f, toks, t, g, ms, m, i, p);
      r, stray, us, u := FollowFixup(rw, node, from, delta, ms, i, e, m, p, q, j);
      RewrittenTwice(f, toks, t, g, ms, m, rw.View(), us, u);
      FollowedNext(t, p, q, j, delta, m, r, stray, u);
      if stray || r != 0 {
        return;
      }
      PropertyThere(g, ms, m, rw.View(), us, u, e, q, j);
      from, e := NextProperty(rw, from, us, e, u, q, j);
      j := j + 1;
    }
  }

  /** fdt_get_name */
  method NodeName(rw: RwTree, node: int, ghost toks: seq<Token>, ghost i: int, ghost t: Tree, ghost p: Path)
    returns (name: seq<byte>)
    requires Stands(rw.View(), toks, t) && NodeAt(StringsOf(rw.View()), toks, i, t, p) && node == Off(toks, i)
    ensures name == SubAt(t, p).name
  {
    RunAt(BlockOf(rw.View()), toks, i);
    OffGrows(toks, 0, i + 1);
    NodeBody(StringsOf(rw.View()), toks, i, t, p);
    name := TokenAt(rw.Block(), node).name;
  }

  /** fdt_subnode_offset */
  method FindSubnode(rw: RwTree, node: int, name: seq<byte>, ghost toks: seq<Token>, ghost i: int, ghost t: Tree,
      ghost p: Path)
      returns (child: int, ghost e: int)
    requires Stands(rw.View(), toks, t) && NodeAt(StringsOf(rw.View()), toks, i, t, p) && node == Off(toks, i)
    ensures var m := FirstMatch(SubAt(t, p).children, name);
      if m < 0 then child == -ERR_NOTFOUND
      else 0 <= e < |toks| && child == Off(toks, e) && NodeAt(StringsOf(rw.View()), toks, e, t, p + [m])
  {
    e := SubnodeTree(BlockOf(rw.View()), StringsOf(rw.View()), toks, i, t, p, name);
    child := FdtSubnode(rw.Block(), node, name);
  }

  /** The loop over the subnodes of the fixup node (lines 248-266). */
  method FollowKids(rw: RwTree, node: int, fixnode: int, delta: int,
                    ghost toks: seq<Token>, ghost i: int, ghost x: int, ghost t: Tree, ghost p: Path, ghost q: Path)
      returns (r: int, stray: bool, ghost us: seq<Token>, ghost u: Tree)
    requires Stands(rw.View(), toks, t) && 0 <= delta < U32 && |p| < |q|
    requires NodeAt(StringsOf(rw.View()), toks, i, t, p) && node == Off(toks, i)
    requires NodeAt(StringsOf(rw.View()), toks, x, t, q) && fixnode == Off(toks, x)
    modifies rw.buf
    ensures Rewritten(old(rw.View()), toks, t, rw.View(), us, u)
    ensures NodeFollowed(r, stray, FixKids(t, p, q, 0, Shape(SubAt(t, q)), delta), u)
    decreases Shape(SubAt(t, q)), 0
  {
    ghost var f, shape, c := rw.View(), Shape(SubAt(t, q)), 0;
    us, u, r, stray := toks, t, 0, false;
    var child: int;
    ghost var e: int;
    child, e := FirstChild(rw, fixnode, toks, x, t, q);
    while child >= 0
      invariant Rewritten(f, toks, t, rw.View(), us, u) && r == 0 && !stray
      invariant ValidPath(u, p) && ValidPath(u, q) && Shape(SubAt(u, q)) == shape
      invariant |SubAt(u, q).children| == |shape.children| && 0 <= c <= |shape.children|
      invariant FixKids(t, p, q, 0, shape, delta) == FixKids(u, p, q, c, shape, delta)
      invariant if child < 0 then c == |shape.children|
                else c < |shape.children| && 0 <= e < |us| && child == Off(us, e)
                     && NodeAt(StringsOf(rw.View()), us, e, u, q + [c])
      decreases |shape.children| - c
    {
      ghost var g, ms, m := rw.View(), us, u;
      NodeThere(f, toks, t, g, ms, m, i, p);
      KidStep(m, p, q, c, shape, delta);
      r, stray, us, u := FollowKid(rw, node, child, delta, ms, i, e, m, p, q, c);
      RewrittenTwice(f, toks, t, g, ms, m, rw.View(), us, u);
      if stray || r != 0 {
        return;
      }
      NodeThere(g, ms, m, rw.View(), us, u, e, q + [c]);
      ShapeKids(SubAt(t, q), SubAt(u, q));
      child, e := NextChild(rw, child, us, e, u, q, c);
      c := c + 1;
    }
  }

  /** One subnode of the fixup node (lines 249-265). */
  method FollowKid(rw: RwTree, node: int, child: int, delta: int,
                   ghost toks: seq<Token>, ghost i: int, ghost e: int, ghost t: Tree, ghost p: Path, ghost q: Path,
                     ghost c: nat)
      returns (r: int, stray: bool, ghost us: seq<Token>, ghost u: Tree)
    requires Stands(rw.View(), toks, t) && 0 <= delta < U32 && |p| < |q| && ValidPath(t, q)
    requires c < |SubAt(t, q).children|
    requires NodeAt(StringsOf(rw.View()), toks, i, t, p) && node == Off(toks, i)
    requires NodeAt(StringsOf(rw.View()), toks, e, t, q + [c]) && child == Off(toks, e)
    requires SubAt(t, q + [c]) == SubAt(t, q).children[c]
    modifies rw.buf
    ensures Rewritten(old(rw.View()), toks, t, rw.View(), us, u)
    ensures var m := FirstMatch(SubAt(t, p).children, SubAt(t, q).children[c].name);
      if m < 0 then r == -ERR_BADOVERLAY && !stray
      else ValidPath(t, p + [m])
           && NodeFollowed(r, stray, FixNode(t, p + [m], q + [c], Shape(SubAt(t, q + [c])), delta), u)
    decreases Shape(SubAt(t, q + [c])), 2
  {
    us, u, stray := toks, t, false;
    var name := NodeName(rw, child, toks, e, t, q + [c]);
    var sub: int;
    ghost var d: int;
    sub, d := FindSubnode(rw, node, name, toks, i, t, p);
    if sub < 0 {
      r := if sub == -ERR_NOTFOUND then -ERR_BADOVERLAY else sub;
      return;
    }
    ghost var m := FirstMatch(SubAt(t, p).children, name);
    r, stray, us, u := FollowNode(rw, sub, child, delta, toks, d, e, t, p + [m], q + [c]);
  }

  /** overlay_update_local_node_references (lines 201-269). */
  method FollowNode(rw: RwTree, node: int, fixnode: int, delta: int,
                    ghost toks: seq<Token>, ghost i: int, ghost x: int, ghost t: Tree, ghost p: Path, ghost q: Path)
      returns (r: int, stray: bool, ghost us: seq<Token>, ghost u: Tree)
    requires Stands(rw.View(), toks, t) && 0 <= delta < U32 && |p| < |q|
    requires NodeAt(StringsOf(rw.View()), toks, i, t, p) && node == Off(toks, i)
    requires NodeAt(StringsOf(rw.View()), toks, x, t, q) && fixnode == Off(toks, x)
    modifies rw.buf
    ensures Rewritten(old(rw.View()), toks, t, rw.View(), us, u)
    ensures NodeFollowed(r, stray, FixNode(t, p, q, Shape(SubAt(t, q)), delta), u)
    decreases Shape(SubAt(t, q)), 1
  {
    ghost var f := rw.View();
    r, stray, us, u := FollowProps(rw, node, fixnode, delta, toks, i, x, t, p, q);
    if stray || r != 0 {
      return;
    }
    ghost var g, ms, m := rw.View(), us, u;
    NodeThere(f, toks, t, g, ms, m, i, p);
    NodeThere(f, toks, t, g, ms, m, x, q);
    ShapeAt(t, m, q);
    r, stray, us, u := FollowKids(rw, node, fixnode, delta, ms, i, x, m, p, q);
    RewrittenTwice(f, toks, t, g, ms, m, rw.View(), us, u);
  }
}
