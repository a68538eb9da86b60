/** Renumbering an overlay as it runs: stores into the blob in place
    (lib/libfdt/fdt_overlay.c:101-306, lib/libfdt/fdt_ro.c:114-140). */
module FdtOverlayRun {
  import opened Bytes
  import opened FdtTags
  import opened FdtStrings
  import opened FdtStream
  import opened FdtWalk
  import opened FdtEdit
  import opened FdtTrees
  import opened FdtLookup
  import opened FdtSearch
  import opened FdtPath
  import opened FdtRwModel
  import opened FdtRw
  import opened FdtRwTrees
  import opened FdtShape
  import opened FdtKids
  import opened FdtOverlay
  import opened FdtFixups
  import opened FdtPhandleFits

  // ------------------------------------------------------ one word in place

  /** The store of one word into the value of a property, as fdt32_st does it in
      the blob: the same tokens, but for that word of that value. */
  lemma WordStored(b: Block, toks: seq<Token>, j: int, k: int, w: int)
    requires Run(b, toks) && 0 <= j < |toks| && toks[j].Prop? && 0 <= k && k + 4 <= |toks[j].val| && 0 <= w < U32
    ensures Off(toks, j) + 12 + k + 4 <= |b|
    ensures Run(Overwrite(b, Off(toks, j) + 12 + k, Word(w)),
      toks[j := Prop(toks[j].nameoff, Overwrite(toks[j].val, k, Word(w)))])
  {
    var o, tok := Off(toks, j), toks[j];
    var tok' := Prop(tok.nameoff, Overwrite(tok.val, k, Word(w)));
    RunHolds(b, toks, j);
    HoldsBound(b, o, tok);
    AlignUp(|tok.val|);
    var b' := Overwrite(b, o + 12 + k, Word(w));
    ValueStored(b, o, tok, k, w);
    var a, c := toks[..j], toks[j + 1..] + [Fin];
    assert toks + [Fin] == a + [tok] + c;
    OverwriteOutside(b, o + 12 + k, Word(w), 0, o);
    OverwriteOutside(b, o + 12 + k, Word(w), o + Size(tok), |b|);
    LaidPatch(b, b', a, tok, tok', c);
    assert toks[j := tok'] + [Fin] == a + [tok'] + c;
  }

  lemma ValueStored(b: Block, o: int, tok: Token, k: int, w: int)
    requires Holds(b, o, tok) && tok.Prop? && 0 <= k && k + 4 <= |tok.val| && 0 <= w < U32 && 0 <= o
    requires o + Size(tok) <= |b|
    requires o + 12 + k + 4 <= |b|
    ensures Holds(Overwrite(b, o + 12 + k, Word(w)), o, Prop(tok.nameoff, Overwrite(tok.val, k, Word(w))))
  {
    var b' := Overwrite(b, o + 12 + k, Word(w));
    HoldsIs(b, o, tok);
    AlignUp(|tok.val|);
    OverwriteOutside(b, o + 12 + k, Word(w), o, o + 4);
    SameWord(b, b', o, o);
    OverwriteOutside(b, o + 12 + k, Word(w), o + 4, o + 8);
    SameWord(b, b', o + 4, o + 4);
    OverwriteOutside(b, o + 12 + k, Word(w), o + 8, o + 12);
    SameWord(b, b', o + 8, o + 8);
    OverwriteSlice(b, o + 12, |tok.val|, k, Word(w));
    HoldsIs(b', o, Prop(tok.nameoff, Overwrite(tok.val, k, Word(w))));
  }

  // -------------------------------------------------- the blob and its tree

  /** The blob is the tokens toks and reads as t. */
  ghost predicate Stands(f: Rw, toks: seq<Token>, t: Tree) {
    Ordered(f) && Run(BlockOf(f), toks) && Whole(StringsOf(f), toks, t)
  }

  /** Only values have been changed: the header, the strings and every byte outside
      the structure block are as they were, every token is where it was. */
  ghost predicate Rewritten(f: Rw, toks: seq<Token>, t: Tree, g: Rw, us: seq<Token>, u: Tree) {
    && Stands(f, toks, t) && Stands(g, us, u) && SameLayout(toks, us) && Shape(u) == Shape(t)
    && g == f.(bytes := g.bytes) && StringsOf(g) == StringsOf(f)
    && |g.bytes| == |f.bytes| && g.bytes[..f.offStruct] == f.bytes[..f.offStruct]
    && g.bytes[f.offStruct + f.sizeStruct..] == f.bytes[f.offStruct + f.sizeStruct..]
  }

  lemma RewrittenTwice(f: Rw, toks: seq<Token>, t: Tree, g: Rw, us: seq<Token>, u: Tree, h: Rw, vs: seq<Token>, v: Tree)
    requires Rewritten(f, toks, t, g, us, u) && Rewritten(g, us, u, h, vs, v)
    ensures Rewritten(f, toks, t, h, vs, v)
  {
    forall i {:trigger vs[i]} | 0 <= i < |toks|
      ensures Blank(vs[i]) == Blank(toks[i])
    {
      assert Blank(vs[i]) == Blank(us[i]) == Blank(toks[i]);
    }
  }

  /** A node of the tree is at the same offset afterwards. */
  lemma NodeThere(f: Rw, toks: seq<Token>, t: Tree, g: Rw, us: seq<Token>, u: Tree, i: int, p: Path)
    requires Rewritten(f, toks, t, g, us, u) && NodeAt(StringsOf(f), toks, i, t, p)
    ensures NodeAt(StringsOf(g), us, i, u, p) && Off(us, i) == Off(toks, i)
  {
    NodeStaysPut(StringsOf(f), toks, us, i, t, u, p);
    LayoutOff(toks, us, i);
  }

  lemma PropertyThere(f: Rw, toks: seq<Token>, t: Tree, g: Rw, us: seq<Token>, u: Tree, e: int, p: Path, k: int)
    requires Rewritten(f, toks, t, g, us, u) && PropertyAt(StringsOf(f), toks, e, t, p, k)
    ensures PropertyAt(StringsOf(g), us, e, u, p, k) && Off(us, e) == Off(toks, e)
  {
    PropertyStaysPut(StringsOf(f), toks, us, e, t, u, p, k);
    LayoutOff(toks, us, e);
  }

  /** Where the fields of a property are. */
  lemma PropertyFields(f: Rw, toks: seq<Token>, e: int, t: Tree, p: Path, k: int)
    requires Stands(f, toks, t) && PropertyAt(StringsOf(f), toks, e, t, p, k)
    ensures var b, o, ps := BlockOf(f), Off(toks, e), SubAt(t, p).props;
      && 0 <= o && o + 12 + |ps[k].1| <= |b| && b[o + 12..o + 12 + |ps[k].1|] == ps[k].1
      && Get32(b, o + 4) == |ps[k].1| && GetString(StringsOf(f), Get32(b, o + 8)) == Text(ps[k].0)
  {
    RunHolds(BlockOf(f), toks, e);
    HoldsIs(BlockOf(f), Off(toks, e), toks[e]);
    PropertyReads(StringsOf(f), toks, e, t, p, k);
    AlignUp(|toks[e].val|);
  }

  /** Storing a word in a value. */
  lemma StoreRewrites(f: Rw, toks: seq<Token>, e: int, t: Tree, p: Path, k: int, o: int, w: int, g: Rw)
    returns (us: seq<Token>)
    requires Stands(f, toks, t) && PropertyAt(StringsOf(f), toks, e, t, p, k) && 0 <= w < U32
    requires 0 <= o && o + 4 <= |SubAt(t, p).props[k].1|
    requires 0 <= f.offStruct + Off(toks, e) + 12 + o && f.offStruct + Off(toks, e) + 12 + o + 4 <= |f.bytes|
    requires g == f.(bytes := Overwrite(f.bytes, f.offStruct + Off(toks, e) + 12 + o, Word(w)))
    ensures Rewritten(f, toks, t, g, us, SetVal(t, p, k, Overwrite(SubAt(t, p).props[k].1, o, Word(w))))
  {
    var at, val := Off(toks, e) + 12 + o, toks[e].val;
    PropertyReads(StringsOf(f), toks, e, t, p, k);
    us := toks[e := Prop(toks[e].nameoff, Overwrite(val, o, Word(w)))];
    WordStored(BlockOf(f), toks, e, o, w);
    BlockStored(f, g, at, w);
    ValueSet(StringsOf(f), toks, e, t, p, k, Overwrite(val, o, Word(w)));
  }

  lemma BlockStored(f: Rw, g: Rw, at: int, w: int)
    requires Ordered(f) && 0 <= at && at + 4 <= f.sizeStruct && 0 <= w < U32
    requires g == f.(bytes := Overwrite(f.bytes, f.offStruct + at, Word(w)))
    ensures Ordered(g) && BlockOf(g) == Overwrite(BlockOf(f), at, Word(w)) && StringsOf(g) == StringsOf(f)
    ensures |g.bytes| == |f.bytes| && g.bytes[..f.offStruct] == f.bytes[..f.offStruct]
    ensures g.bytes[f.offStruct + f.sizeStruct..] == f.bytes[f.offStruct + f.sizeStruct..]
  {
    OverwriteSlice(f.bytes, f.offStruct, f.sizeStruct, at, Word(w));
    OverwriteOutside(f.bytes, f.offStruct + at, Word(w), f.offStrings, f.offStrings + f.sizeStrings);
    OverwriteOutside(f.bytes, f.offStruct + at, Word(w), 0, f.offStruct);
    OverwriteOutside(f.bytes, f.offStruct + at, Word(w), f.offStruct + f.sizeStruct, |f.bytes|);
    assert f.bytes[0..f.offStruct] == f.bytes[..f.offStruct] && g.bytes[0..f.offStruct] == g.bytes[..f.offStruct];
    assert f.bytes[f.offStruct + f.sizeStruct..|f.bytes|] == f.bytes[f.offStruct + f.sizeStruct..];
    assert g.bytes[f.offStruct + f.sizeStruct..|f.bytes|] == g.bytes[f.offStruct + f.sizeStruct..];
  }

  /** fdt32_st */
  method Put32(buf: array<byte>, o: int, w: int)
    requires 0 <= o && o + 4 <= buf.Length && 0 <= w < U32
    modifies buf
    ensures buf[..] == Overwrite(old(buf[..]), o, Word(w))
  {
    var d := Word(w);
    buf[o], buf[o + 1], buf[o + 2], buf[o + 3] := d[0], d[1], d[2], d[3];
  }

  // ---------------------------------------------------------------- phandles

  /** fdt_getprop_w, as far as these steps use it: the property's offset, and that
      of token e in the tree. */
  method FindProperty(rw: RwTree, node: int, name: seq<byte>, ghost toks: seq<Token>, ghost i: int, ghost t: Tree,
      ghost p: Path)
      returns (o: int, ghost e: int)
    requires Stands(rw.View(), toks, t) && NodeAt(StringsOf(rw.View()), toks, i, t, p) && node == Off(toks, i)
    ensures var k := PropIndex(SubAt(t, p).props, name);
      if k < 0 then o == -ERR_NOTFOUND
      else 0 <= e < |toks| && o == Off(toks, e) && PropertyAt(StringsOf(rw.View()), toks, e, t, p, k)
  {
    e := NamedPropTree(BlockOf(rw.View()), StringsOf(rw.View()), toks, i, t, p, name);
    o := FdtGetProp(rw.Block(), rw.Strings(), node, name);
  }

  /** The length of the property at o, and below the word at `at` of its value. */
  method PropertyLength(rw: RwTree, o: int, ghost toks: seq<Token>, ghost e: int, ghost t: Tree, ghost p: Path,
      ghost k: int)
      returns (len: int)
    requires Stands(rw.View(), toks, t) && PropertyAt(StringsOf(rw.View()), toks, e, t, p, k) && o == Off(toks, e)
    ensures len == |SubAt(t, p).props[k].1|
  {
    PropertyFields(rw.View(), toks, e, t, p, k);
    len := Get32(rw.Block(), o + 4);
  }

  method PropertyWord(rw: RwTree, o: int, at: int, ghost toks: seq<Token>, ghost e: int, ghost t: Tree, ghost p: Path,
      ghost k: int)
      returns (w: int)
    requires Stands(rw.View(), toks, t) && PropertyAt(StringsOf(rw.View()), toks, e, t, p, k) && o == Off(toks, e)
    requires 0 <= at && at + 4 <= |SubAt(t, p).props[k].1|
    ensures w == Get32(SubAt(t, p).props[k].1, at)
  {
    PropertyFields(rw.View(), toks, e, t, p, k);
    ghost var val := SubAt(t, p).props[k].1;
    SliceOfSlice(BlockOf(rw.View()), o + 12, |val|, at, at + 4);
    SameWord(BlockOf(rw.View()), val, o + 12 + at, at);
    w := Get32(rw.Block(), o + 12 + at);
  }

  method PutWord(rw: RwTree, o: int, w: int)
    requires 0 <= o && o + 4 <= rw.buf.Length && 0 <= w < U32
    modifies rw.buf
    ensures rw.View() == old(rw.View()).(bytes := Overwrite(old(rw.View()).bytes, o, Word(w)))
  {
    Put32(rw.buf, o, w);
  }

  /** Storing the word at `at` of the value of the property at o. */
  method StoreWord(rw: RwTree, o: int, at: int, w: int, ghost toks: seq<Token>, ghost e: int, ghost t: Tree,
      ghost p: Path, ghost k: int)
      returns (ghost us: seq<Token>)
    requires Stands(rw.View(), toks, t) && PropertyAt(StringsOf(rw.View()), toks, e, t, p, k) && o == Off(toks, e)
    requires 0 <= at && at + 4 <= |SubAt(t, p).props[k].1| && 0 <= w < U32
    modifies rw.buf
    ensures Rewritten(old(rw.View()), toks, t, rw.View(), us,
      SetVal(t, p, k, Overwrite(SubAt(t, p).props[k].1, at, Word(w))))
  {
    ghost var f := rw.View();
    PropertyFields(f, toks, e, t, p, k);
    PutWord(rw, rw.offStruct + o + 12 + at, w);
    us := StoreRewrites(f, toks, e, t, p, k, at, w, rw.View());
  }

  /** What a step has made of the properties of the node at p. */
  ghost predicate Became(r: int, out: Outcome<Props>, t: Tree, p: Path, u: Tree)
    requires ValidPath(t, p)
  {
    match out
    case Failed(e) => r == e
    case Stray => false
    case Done(ps) => r == 0 && u == WithProps(t, p, ps)
  }

  /** ... of its subnodes, and of the node. */
  ghost predicate KidsBecame(r: int, out: Outcome<seq<Tree>>, t: Tree, p: Path, u: Tree)
    requires ValidPath(t, p)
  {
    match out
    case Failed(e) => r == e
    case Stray => false
    case Done(ks) => r == 0 && u == ReplaceAt(t, p, SubAt(t, p).(children := ks))
  }

  ghost predicate NodeBecame(r: int, out: Outcome<Tree>, t: Tree, p: Path, u: Tree)
    requires ValidPath(t, p)
  {
    match out
    case Failed(e) => r == e
    case Stray => false
    case Done(v) => r == 0 && u == ReplaceAt(t, p, v)
  }

  /** overlay_phandle_add_offset (lines 101-120). */
  method AddPhandleOffset(rw: RwTree, node: int, name: seq<byte>, delta: int, ghost toks: seq<Token>, ghost i: int,
      ghost t: Tree, ghost p: Path)
      returns (r: int, ghost us: seq<Token>, ghost u: Tree)
    requires Stands(rw.View(), toks, t) && NodeAt(StringsOf(rw.View()), toks, i, t, p) && node == Off(toks, i)
    requires 0 <= delta < U32
    modifies rw.buf
    ensures Rewritten(old(rw.View()), toks, t, rw.View(), us, u)
    ensures Became(r, AddOffset(SubAt(t, p).props, name, delta), t, p, u) && (r != 0 ==> r < 0 && us == toks && u == t)
    ensures var v := ValueIn(SubAt(t, p).props, name);
      r == if v.Missing? then -ERR_NOTFOUND else PhandleError(v, delta)
  {
    AddExactly(SubAt(t, p).props, name, delta);
    us, u := toks, t;
    ghost var k := PropIndex(SubAt(t, p).props, name);
    var o: int;
    ghost var e: int;
    o, e := FindProperty(rw, node, name, toks, i, t, p);
    if o < 0 {
      r := o;
      return;
    }
    var len := PropertyLength(rw, o, toks, e, t, p, k);
    if len != 4 {
      r := -ERR_BADPHANDLE;
      return;
    }
    var val := PropertyWord(rw, o, 0, toks, e, t, p, k);
    var sum := (val + delta) % U32;
    if sum < val || sum == U32 - 1 {
      r := -ERR_NOPHANDLES;
      return;
    }
    us := StoreWord(rw, o, 0, sum, toks, e, t, p, k);
    OverwriteAll(SubAt(t, p).props[k].1, Word(sum));
    u := SetVal(t, p, k, Word(sum));
    r := 0;
  }

  /** A missing phandle is no error. */
  method AddPhandleIfThere(rw: RwTree, node: int, name: seq<byte>, delta: int, ghost toks: seq<Token>, ghost i: int,
      ghost t: Tree, ghost p: Path)
      returns (r: int, ghost us: seq<Token>, ghost u: Tree)
    requires Stands(rw.View(), toks, t) && NodeAt(StringsOf(rw.View()), toks, i, t, p) && node == Off(toks, i)
    requires 0 <= delta < U32
    modifies rw.buf
    ensures Rewritten(old(rw.View()), toks, t, rw.View(), us, u)
    ensures Became(r, AddIfThere(SubAt(t, p).props, name, delta), t, p, u)
  {
    r, us, u := AddPhandleOffset(rw, node, name, delta, toks, i, t, p);
    if r == -ERR_NOTFOUND {
      r := 0;
      ReplacedSame(t, p);
    }
  }

  /** The two phandle properties of a node (lines 143-149). */
  method AdjustOwn(rw: RwTree, node: int, delta: int, ghost toks: seq<Token>, ghost i: int, ghost t: Tree,
      ghost p: Path)
      returns (r: int, ghost us: seq<Token>, ghost u: Tree)
    requires Stands(rw.View(), toks, t) && NodeAt(StringsOf(rw.View()), toks, i, t, p) && node == Off(toks, i)
    requires 0 <= delta < U32
    modifies rw.buf
    ensures Rewritten(old(rw.View()), toks, t, rw.View(), us, u)
    ensures Became(r, AdjustProps(SubAt(t, p).props, delta), t, p, u)
  {
    ghost var f := rw.View();
    r, us, u := AddPhandleIfThere(rw, node, PHANDLE, delta, toks, i, t, p);
    if r != 0 {
      return;
    }
    ghost var g, ms, m := rw.View(), us, u;
    ghost var first := SubAt(t, p).(props := AddIfThere(SubAt(t, p).props, PHANDLE, delta).value);
    NodeThere(f, toks, t, g, ms, m, i, p);
    ReplaceTwice(t, p, first, first);
    r, us, u := AddPhandleIfThere(rw, node, LINUX_PHANDLE, delta, ms, i, m, p);
    RewrittenTwice(f, toks, t, g, ms, m, rw.View(), us, u);
    if r == 0 {
      ReplaceTwice(t, p, first, first.(props := AddIfThere(first.props, LINUX_PHANDLE, delta).value));
    }
  }

  ghost function Prefixed(a: seq<Tree>, r: Outcome<seq<Tree>>): Outcome<seq<Tree>> {
    if r.Done? then Done(a + r.value) else r
  }

  /** The subnodes so far adjusted, the others as they were. */
  ghost predicate Halfway(t: Tree, p: Path, done: seq<Tree>, u: Tree, delta: int)
    requires ValidPath(t, p) && 0 <= delta < U32
  {
    var kids := SubAt(t, p).children;
    && |done| <= |kids| && u == ReplaceAt(t, p, SubAt(t, p).(children := done + kids[|done|..]))
    && AdjustAll(kids, delta) == Prefixed(done, AdjustAll(kids[|done|..], delta))
  }

  lemma HalfwayStart(t: Tree, p: Path, delta: int)
    requires ValidPath(t, p) && 0 <= delta < U32
    ensures Halfway(t, p, [], t, delta)
  {
    var kids := SubAt(t, p).children;
    assert [] + kids[0..] == kids;
    ReplacedSame(t, p);
    var r := AdjustAll(kids, delta);
    if r.Done? { assert [] + r.value == r.value; }
  }

  lemma HalfwayKid(t: Tree, p: Path, done: seq<Tree>, u: Tree, delta: int)
    requires ValidPath(t, p) && 0 <= delta < U32 && Halfway(t, p, done, u, delta) && |done| < |SubAt(t, p).children|
    ensures ValidPath(u, p) && |SubAt(u, p).children| == |SubAt(t, p).children|
    ensures ValidPath(u, p + [|done|]) && SubAt(u, p + [|done|]) == SubAt(t, p).children[|done|]
  {
    var v := SubAt(t, p).(children := done + SubAt(t, p).children[|done|..]);
    ReplaceTwice(t, p, v, v);
    StepDown(u, p, |done|);
  }

  lemma HalfwayNext(t: Tree, p: Path, done: seq<Tree>, u: Tree, delta: int, w: Tree)
    requires ValidPath(t, p) && 0 <= delta < U32 && Halfway(t, p, done, u, delta) && |done| < |SubAt(t, p).children|
    requires Adjust(SubAt(t, p).children[|done|], delta) == Done(w)
    ensures ValidPath(u, p + [|done|]) && Halfway(t, p, done + [w], ReplaceAt(u, p + [|done|], w), delta)
  {
    var kids, c := SubAt(t, p).children, |done|;
    var v := SubAt(t, p).(children := done + kids[c..]);
    HalfwayKid(t, p, done, u, delta);
    ReplaceTwice(t, p, v, v);
    ReplaceDown(u, p, c, w);
    NextDone(kids, done, w);
    ReplaceTwice(t, p, v, v.(children := (done + [w]) + kids[c + 1..]));
    NextOutcome(kids, done, delta, w);
  }

  lemma NextDone(kids: seq<Tree>, done: seq<Tree>, w: Tree)
    requires |done| < |kids|
    ensures (done + kids[|done|..])[|done| := w] == (done + [w]) + kids[|done| + 1..]
  {
  }

  lemma NextOutcome(kids: seq<Tree>, done: seq<Tree>, delta: int, w: Tree)
    requires |done| < |kids| && 0 <= delta < U32 && Adjust(kids[|done|], delta) == Done(w)
    ensures Prefixed(done, AdjustAll(kids[|done|..], delta))
      == Prefixed(done + [w], AdjustAll(kids[|done| + 1..], delta))
  {
    var c := |done|;
    assert kids[c..][0] == kids[c] && kids[c..][1..] == kids[c + 1..];
    var r := AdjustAll(kids[c + 1..], delta);
    if r.Done? { assert done + ([w] + r.value) == (done + [w]) + r.value; }
  }

  lemma HalfwayFails(t: Tree, p: Path, done: seq<Tree>, u: Tree, delta: int)
    requires ValidPath(t, p) && 0 <= delta < U32 && Halfway(t, p, done, u, delta) && |done| < |SubAt(t, p).children|
    requires Adjust(SubAt(t, p).children[|done|], delta).Failed?
    ensures AdjustAll(SubAt(t, p).children, delta) == Failed(Adjust(SubAt(t, p).children[|done|], delta).err)
  {
    var kids, c := SubAt(t, p).children, |done|;
    assert kids[c..][0] == kids[c];
  }

  lemma HalfwayEnd(t: Tree, p: Path, done: seq<Tree>, u: Tree, delta: int)
    requires ValidPath(t, p) && 0 <= delta < U32 && Halfway(t, p, done, u, delta) && |done| == |SubAt(t, p).children|
    ensures KidsBecame(0, AdjustAll(SubAt(t, p).children, delta), t, p, u)
  {
    var kids := SubAt(t, p).children;
    assert kids[|done|..] == [] && done + [] == done;
  }

  lemma ShapeBelow(t: Tree, c: int)
    requires 0 <= c < |t.children|
    ensures |Shape(t).children| == |t.children| && Shape(t).children[c] == Shape(t.children[c])
  {
    ShapeAllAt(t.children, c);
  }

  /** fdt_first_subnode and fdt_next_subnode on the blob of a tree. */
  method FirstChild(rw: RwTree, node: int, ghost toks: seq<Token>, ghost i: int, ghost t: Tree, ghost p: Path)
    returns (child: int, ghost e: int)
    requires Stands(rw.View(), toks, t) && NodeAt(StringsOf(rw.View()), toks, i, t, p) && node == Off(toks, i)
    ensures if SubAt(t, p).children == [] then child < 0
            else 0 <= e < |toks| && child == Off(toks, e) && NodeAt(StringsOf(rw.View()), toks, e, t, p + [0])
  {
    e := FirstChildTree(BlockOf(rw.View()), StringsOf(rw.View()), toks, i, t, p);
    child := FdtFirstSubnode(rw.Block(), node);
  }

  method NextChild(rw: RwTree, node: int, ghost toks: seq<Token>, ghost i: int, ghost t: Tree, ghost p: Path,
      ghost c: nat)
      returns (child: int, ghost e: int)
    requires Stands(rw.View(), toks, t) && ValidPath(t, p) && c < |SubAt(t, p).children|
    requires NodeAt(StringsOf(rw.View()), toks, i, t, p + [c]) && node == Off(toks, i)
    ensures if c + 1 == |SubAt(t, p).children| then child < 0
            else 0 <= e < |toks| && child == Off(toks, e) && NodeAt(StringsOf(rw.View()), toks, e, t, p + [c + 1])
  {
    e := NextChildTree(BlockOf(rw.View()), StringsOf(rw.View()), toks, i, t, p, c);
    child := FdtNextSubnode(rw.Block(), node);
  }

  /** The loop over the subnodes (lines 151-155). */
  method AdjustSubnodes(rw: RwTree, node: int, delta: int, ghost toks: seq<Token>, ghost i: int, ghost t: Tree,
      ghost p: Path)
      returns (r: int, ghost us: seq<Token>, ghost u: Tree)
    requires Stands(rw.View(), toks, t) && NodeAt(StringsOf(rw.View()), toks, i, t, p) && node == Off(toks, i)
    requires 0 <= delta < U32
    modifies rw.buf
    ensures Rewritten(old(rw.View()), toks, t, rw.View(), us, u)
    ensures KidsBecame(r, AdjustAll(SubAt(t, p).children, delta), t, p, u)
    decreases Shape(SubAt(t, p)), 0
  {
    ghost var f, done := rw.View(), [];
    us, u, r := toks, t, 0;
    HalfwayStart(t, p, delta);
    var child: int;
    ghost var e: int;
    child, e := FirstChild(rw, node, toks, i, t, p);
    while child >= 0
      invariant Rewritten(f, toks, t, rw.View(), us, u) && Halfway(t, p, done, u, delta) && r == 0
      invariant if child < 0 then |done| == |SubAt(t, p).children|
                else |done| < |SubAt(t, p).children| && 0 <= e < |us| && child == Off(us, e)
                     && NodeAt(StringsOf(rw.View()), us, e, u, p + [|done|])
      decreases |SubAt(t, p).children| - |done|
    {
      ghost var g, ms, m, c := rw.View(), us, u, |done|;
      HalfwayKid(t, p, done, m, delta);
      ShapeBelow(SubAt(t, p), c);
      r, us, u := AdjustNode(rw, child, delta, ms, e, m, p + [c]);
      RewrittenTwice(f, toks, t, g, ms, m, rw.View(), us, u);
      if r != 0 {
        HalfwayFails(t, p, done, m, delta);
        return;
      }
      NodeThere(g, ms, m, rw.View(), us, u, e, p + [c]);
      ghost var w := Adjust(SubAt(t, p).children[c], delta).value;
      HalfwayNext(t, p, done, m, delta, w);
      done := done + [w];
      HalfwaySame(t, p, done, u, delta);
      child, e := NextChild(rw, child, us, e, u, p, c);
    }
    HalfwayEnd(t, p, done, u, delta);
  }

  lemma HalfwaySame(t: Tree, p: Path, done: seq<Tree>, u: Tree, delta: int)
    requires ValidPath(t, p) && 0 <= delta < U32 && Halfway(t, p, done, u, delta)
    ensures ValidPath(u, p) && |SubAt(u, p).children| == |SubAt(t, p).children|
  {
    var v := SubAt(t, p).(children := done + SubAt(t, p).children[|done|..]);
    ReplaceTwice(t, p, v, v);
  }

  /** overlay_adjust_node_phandles (lines 137-158). */
  method AdjustNode(rw: RwTree, node: int, delta: int, ghost toks: seq<Token>, ghost i: int, ghost t: Tree,
      ghost p: Path)
      returns (r: int, ghost us: seq<Token>, ghost u: Tree)
    requires Stands(rw.View(), toks, t) && NodeAt(StringsOf(rw.View()), toks, i, t, p) && node == Off(toks, i)
    requires 0 <= delta < U32
    modifies rw.buf
    ensures Rewritten(old(rw.View()), toks, t, rw.View(), us, u)
    ensures NodeBecame(r, Adjust(SubAt(t, p), delta), t, p, u)
    ensures r == 0 <==> PhandlesFit(SubAt(t, p), delta)
    decreases Shape(SubAt(t, p)), 1
  {
    AdjustExactly(SubAt(t, p), delta);
    ghost var f := rw.View();
    r, us, u := AdjustOwn(rw, node, delta, toks, i, t, p);
    if r != 0 {
      return;
    }
    ghost var g, ms, m := rw.View(), us, u;
    ghost var v := SubAt(t, p).(props := AdjustProps(SubAt(t, p).props, delta).value);
    NodeThere(f, toks, t, g, ms, m, i, p);
    ReplaceTwice(t, p, v, v);
    ShapeAt(t, m, p);
    r, us, u := AdjustSubnodes(rw, node, delta, ms, i, m, p);
    RewrittenTwice(f, toks, t, g, ms, m, rw.View(), us, u);
    if r == 0 {
      ReplaceTwice(t, p, v, v.(children := AdjustAll(v.children, delta).value));
    }
  }
}
