/** The first steps of fdt_overlay_apply (lib/libfdt/fdt_overlay.c:1041-1062) on
    the blobs: the largest phandle of the base, then the phandles and the local
    references of the overlay. */
module FdtRenumberRun {
  import opened Bytes
  import opened FdtTags
  import opened FdtStrings
  import opened FdtStream
  import opened FdtWalk
  import opened FdtTrees
  import opened FdtLookup
  import opened FdtSearch
  import opened FdtPath
  import opened FdtRwModel
  import opened FdtRw
  import opened FdtRwTrees
  import opened FdtShape
  import opened FdtKids
  import opened FdtOverlay
  import opened FdtFixups
  import opened FdtRenumber
  import opened FdtPhandleFits
  import opened FdtOverlayRun
  import opened FdtRefsRun

  // ---------------------------------------------------- the largest phandle

  /** The loop of fdt_next_node (lib/libfdt/fdt.c:264-292) without a depth: ends of
      nodes are passed over, and a block cut off counts as ended. */
  function WalkAny(b: Block, o: int): (r: int)
    ensures r >= 0 ==> r >= o
    decreases |b| - o
  {
    var (tag, next) := NextTag(b, o);
    if tag == BEGIN_NODE then o
    else if tag == END then if next >= 0 || next == -ERR_TRUNCATED then -ERR_NOTFOUND else next
    else WalkAny(b, next)
  }

  function NextAny(b: Block, offset: int): (r: int)
    ensures offset >= 0 && r >= 0 ==> offset + 4 <= |b| && offset + 4 <= r
  {
    if offset < 0 then WalkAny(b, 0)
    else if CheckNode(b, offset) < 0 then CheckNode(b, offset)
    else WalkAny(b, CheckNode(b, offset))
  }

  method FdtNextNodeAny(b: Block, start: int) returns (offset: int)
    requires |b| < U32
    ensures offset == NextAny(b, start)
  {
    var next := 0;
    if start >= 0 {
      next := CheckNode(b, start);
      if next < 0 {
        return next;
      }
    }
    while true
      invariant next >= 0 && NextAny(b, start) == WalkAny(b, next)
      decreases |b| - next
    {
      offset := next;
      var tag: int;
      tag, next := FdtNextTag(b, offset);
      if tag == BEGIN_NODE {
        return;
      } else if tag == END {
        return if next >= 0 || next == -ERR_TRUNCATED then -ERR_NOTFOUND else next;
      }
    }
  }

  /** The first FDT_BEGIN_NODE from token j on, -1 if there is none. */
  function NextBegin(toks: seq<Token>, j: int): (e: int)
    requires 0 <= j <= |toks|
    ensures if e < 0 then e == -1 else j <= e < |toks| && toks[e].Begin?
    ensures forall a :: j <= a < (if e < 0 then |toks| else e) ==> !toks[a].Begin?
    decreases |toks| - j
  {
    if j == |toks| then -1 else if toks[j].Begin? then j else NextBegin(toks, j + 1)
  }

  lemma {:induction false} WalkAnyScans(b: Block, toks: seq<Token>, j: int)
    requires Run(b, toks) && 0 <= j <= |toks|
    ensures WalkAny(b, Off(toks, j)) == SubOffset(toks, NextBegin(toks, j))
    decreases |toks| - j
  {
    if j == |toks| {
      RunAtEnd(b, toks);
    } else {
      RunAt(b, toks, j);
      if !toks[j].Begin? { WalkAnyScans(b, toks, j + 1); }
    }
  }

  lemma NextAnyScans(b: Block, toks: seq<Token>, i: int)
    requires Run(b, toks) && -1 <= i < |toks| && (i >= 0 ==> toks[i].Begin?)
    ensures NextAny(b, if i < 0 then -1 else Off(toks, i)) == SubOffset(toks, NextBegin(toks, i + 1))
  {
    WalkAnyScans(b, toks, i + 1);
    if i >= 0 {
      RunAt(b, toks, i);
      OffGrows(toks, 0, i);
    } else {
      assert toks[..0] == [];
    }
  }

  /** A property that is one word, -1 if there is none or it is not. */
  method FdtWordProp(rw: RwTree, node: int, name: seq<byte>, ghost toks: seq<Token>, ghost i: int, ghost t: Tree,
      ghost p: Path)
      returns (h: int)
    requires Stands(rw.View(), toks, t) && NodeAt(StringsOf(rw.View()), toks, i, t, p) && node == Off(toks, i)
    ensures var v := ValueIn(SubAt(t, p).props, name); h == if v.Found? && |v.val| == 4 then Get32(v.val, 0) else -1
  {
    ghost var k := PropIndex(SubAt(t, p).props, name);
    var o: int;
    ghost var e: int;
    o, e := FindProperty(rw, node, name, toks, i, t, p);
    if o < 0 {
      return -1;
    }
    var len := PropertyLength(rw, o, toks, e, t, p, k);
    if len != 4 {
      return -1;
    }
    h := PropertyWord(rw, o, 0, toks, e, t, p, k);
  }

  /** fdt_get_phandle (lib/libfdt/fdt_ro.c:513-528). */
  method FdtGetPhandle(rw: RwTree, node: int, ghost toks: seq<Token>, ghost i: int, ghost t: Tree, ghost p: Path)
    returns (h: int)
    requires Stands(rw.View(), toks, t) && NodeAt(StringsOf(rw.View()), toks, i, t, p) && node == Off(toks, i)
    ensures h == GetPhandle(SubAt(t, p).props)
    ensures var v, w := ValueIn(SubAt(t, p).props, PHANDLE), ValueIn(SubAt(t, p).props, LINUX_PHANDLE);
      && (v.Found? && |v.val| == 4 ==> h == Get32(v.val, 0))
      && (!(v.Found? && |v.val| == 4) && w.Found? && |w.val| == 4 ==> h == Get32(w.val, 0))
      && (!(v.Found? && |v.val| == 4) && !(w.Found? && |w.val| == 4) ==> h == 0)
  {
    h := FdtWordProp(rw, node, PHANDLE, toks, i, t, p);
    if h < 0 {
      h := FdtWordProp(rw, node, LINUX_PHANDLE, toks, i, t, p);
      if h < 0 {
        h := 0;
      }
    }
  }

  /** The largest phandle of the nodes in front of token j. */
  ghost predicate LargestUpTo(f: Rw, toks: seq<Token>, t: Tree, j: int, max: int)
    requires Ordered(f)
  {
    && 0 <= max
    && (forall a, q {:trigger NodeAt(StringsOf(f), toks, a, t, q)} ::
          NodeAt(StringsOf(f), toks, a, t, q) && a < j ==> GetPhandle(SubAt(t, q).props) <= max)
    && (max == 0 || exists q :: ValidPath(t, q) && GetPhandle(SubAt(t, q).props) == max)
  }

  lemma LargestNext(f: Rw, toks: seq<Token>, t: Tree, j: int, max: int, a: int, p: Path)
    requires Stands(f, toks, t) && 0 <= j <= a < |toks| && a == NextBegin(toks, j) && LargestUpTo(f, toks, t, j, max)
    requires NodeAt(StringsOf(f), toks, a, t, p)
    ensures var h := GetPhandle(SubAt(t, p).props); LargestUpTo(f, toks, t, a + 1, if h > max then h else max)
  {
    var s, h := StringsOf(f), GetPhandle(SubAt(t, p).props);
    forall c, q {:trigger NodeAt(s, toks, c, t, q)} | NodeAt(s, toks, c, t, q) && c < a + 1
      ensures GetPhandle(SubAt(t, q).props) <= if h > max then h else max
    {
      if c == a { OneNode(s, toks, a, t, p, q); }
    }
  }

  lemma LargestEnd(f: Rw, toks: seq<Token>, t: Tree, j: int, max: int)
    requires Stands(f, toks, t) && 0 <= j <= |toks| && NextBegin(toks, j) < 0 && LargestUpTo(f, toks, t, j, max)
    ensures max == MaxPhandle(t)
  {
    if MaxPhandle(t) > 0 {
      var q := MaxAttained(t);
      var a := NodeExists(StringsOf(f), toks, t, q);
      assert NodeAt(StringsOf(f), toks, a, t, q);
    }
    if max > 0 {
      var q :| ValidPath(t, q) && GetPhandle(SubAt(t, q).props) == max;
      MaxIsBound(t, q);
    }
  }

  /** fdt_find_max_phandle (lib/libfdt/fdt_ro.c:114-140). */
  method FdtFindMaxPhandle(rw: RwTree, ghost toks: seq<Token>, ghost t: Tree) returns (r: int, max: int)
    requires Stands(rw.View(), toks, t)
    ensures r == 0 && max == MaxPhandle(t)
  {
    var b := rw.Block();
    ghost var f, j := rw.View(), 0;
    max := 0;
    NextAnyScans(b, toks, -1);
    var offset := FdtNextNodeAny(b, -1);
    while offset >= 0
      invariant 0 <= j <= |toks| && offset == SubOffset(toks, NextBegin(toks, j)) && LargestUpTo(f, toks, t, j, max)
      decreases |toks| - j
    {
      ghost var a := NextBegin(toks, j);
      ghost var p := BeginIsNode(StringsOf(f), toks, a, t);
      var value := FdtGetPhandle(rw, offset, toks, a, t, p);
      LargestNext(f, toks, t, j, max, a, p);
      if value > max {
        max := value;
      }
      NextAnyScans(b, toks, a);
      offset := FdtNextNodeAny(b, offset);
      j := a + 1;
    }
    LargestEnd(f, toks, t, j, max);
    r := if offset == -ERR_NOTFOUND then 0 else offset;
  }

  // -------------------------------------------------------- the whole steps

  /** overlay_adjust_local_phandles (lib/libfdt/fdt_overlay.c:174-180). */
  method AdjustLocalPhandles(rw: RwTree, delta: int, ghost toks: seq<Token>, ghost t: Tree)
      returns (r: int, ghost us: seq<Token>, ghost u: Tree)
    requires Stands(rw.View(), toks, t) && NodeAt(StringsOf(rw.View()), toks, 0, t, []) && 0 <= delta < U32
    modifies rw.buf
    ensures Rewritten(old(rw.View()), toks, t, rw.View(), us, u)
    ensures match Adjust(t, delta) case Failed(e) => r == e case Stray => false case Done(v) => r == 0 && u == v
    ensures r == 0 <==> PhandlesFit(t, delta)
  {
    assert toks[..0] == [];
    r, us, u := AdjustNode(rw, 0, delta, toks, 0, t, []);
  }

  function FixupsPath(): seq<byte> { [SLASH] + LOCAL_FIXUPS }

  lemma FixupsPathNames()
    ensures Components(FixupsPath(), 0) == [LOCAL_FIXUPS]
  {
    var names := [LOCAL_FIXUPS];
    assert NoSlash(LOCAL_FIXUPS) && PathNames(names);
    TextBack(names);
    assert names[1..] == [];
    assert Joined(names[1..]) == [];
    assert FixupsPath() + [] == FixupsPath();
    assert PathText(names) == FixupsPath();
  }

  lemma DescendOne(b: Block, name: seq<byte>)
    ensures Descend(b, 0, [name]) == Subnode(b, 0, 0, name)
  {
    assert [name][1..] == [];
  }

  /** overlay_update_local_references (lines 288-306). */
  method UpdateLocalReferences(rw: RwTree, delta: int, ghost toks: seq<Token>, ghost t: Tree)
      returns (r: int, stray: bool, ghost us: seq<Token>, ghost u: Tree)
    requires Stands(rw.View(), toks, t) && NodeAt(StringsOf(rw.View()), toks, 0, t, []) && 0 <= delta < U32
    modifies rw.buf
    ensures Rewritten(old(rw.View()), toks, t, rw.View(), us, u)
    ensures NodeFollowed(r, stray, UpdateRefs(t, delta), u)
  {
    us, u, r, stray := toks, t, 0, false;
    assert toks[..0] == [];
    FixupsPathNames();
    DescendOne(rw.Block(), LOCAL_FIXUPS);
    ghost var x := SubnodeTree(BlockOf(rw.View()), StringsOf(rw.View()), toks, 0, t, [], LOCAL_FIXUPS);
    var fixups := FdtPathOffset(rw.Block(), FixupsPath());
    if fixups < 0 {
      r := if fixups == -ERR_NOTFOUND then 0 else fixups;
      return;
    }
    ghost var k := FirstMatch(t.children, LOCAL_FIXUPS);
    assert [] + [k] == [k];
    r, stray, us, u := FollowNode(rw, 0, fixups, delta, toks, 0, x, t, [], [k]);
  }

  /** What both steps come to, by what they are on trees. */
  ghost predicate StepsTaken(r: int, stray: bool, t: Tree, delta: int, u: Tree)
    requires 0 <= delta < U32
  {
    match Adjust(t, delta)
    case Failed(e) => r == e && !stray
    case Stray => false
    case Done(t1) => NodeFollowed(r, stray, UpdateRefs(t1, delta), u)
  }

  /** With clean fixups, a run that returns 0 has renumbered the overlay. */
  lemma ZeroRenumbers(t: Tree, delta: int, u: Tree) returns (t1: Tree)
    requires 0 <= delta < U32 && StepsTaken(0, false, t, delta, u) && CleanFixups(t)
    ensures Renumbered(t, t1, u, delta)
  {
    t1 := Adjust(t, delta).value;
  }

  /** ... and it returns 0 exactly then. */
  lemma ZeroExactly(r: int, stray: bool, t: Tree, delta: int, u: Tree)
    requires 0 <= delta < U32 && StepsTaken(r, stray, t, delta, u)
    ensures CleanFixups(t) ==> (r == 0 && !stray <==> PhandlesFit(t, delta) && SlotsFit(t))
  {
    if CleanFixups(t) {
      RenumbersExactly(t, delta);
      AdjustExactly(t, delta);
    }
  }

  /** The renumbering in fdt_overlay_apply (lines 1049-1062). With clean fixups it
      returns 0 and strays nowhere exactly if every phandle stays legal and every
      slot is inside its property. */
  method RenumberOverlay(base: RwTree, rw: RwTree, ghost btoks: seq<Token>, ghost bt: Tree, ghost toks: seq<Token>,
      ghost t: Tree)
      returns (r: int, stray: bool, ghost us: seq<Token>, ghost u: Tree)
    requires base != rw && base.buf != rw.buf && Stands(base.View(), btoks, bt)
    requires Stands(rw.View(), toks, t) && NodeAt(StringsOf(rw.View()), toks, 0, t, [])
    modifies rw.buf
    ensures Rewritten(old(rw.View()), toks, t, rw.View(), us, u)
    ensures StepsTaken(r, stray, t, MaxPhandle(bt), u)
    ensures CleanFixups(t) ==> (r == 0 && !stray <==> PhandlesFit(t, MaxPhandle(bt)) && SlotsFit(t))
  {
    stray := false;
    us, u := toks, t;
    var delta: int;
    r, delta := FdtFindMaxPhandle(base, btoks, bt);
    if r != 0 {
      return;
    }
    ghost var f := rw.View();
    r, us, u := AdjustLocalPhandles(rw, delta, toks, t);
    if r != 0 {
      ZeroExactly(r, stray, t, delta, u);
      return;
    }
    ghost var g, ms, m := rw.View(), us, u;
    NodeThere(f, toks, t, g, ms, m, 0, []);
    r, stray, us, u := UpdateLocalReferences(rw, delta, ms, m);
    RewrittenTwice(f, toks, t, g, ms, m, rw.View(), us, u);
    ZeroExactly(r, stray, t, delta, u);
  }
}
