/** Deleting in place (lib/libfdt/fdt_wip.c): a node or a property is
    overwritten with FDT_NOP. */
module FdtWip {
  import opened Bytes
  import opened FdtTags
  import opened FdtStream
  import opened FdtWalk
  import opened FdtEdit
  import opened FdtTrees
  import opened FdtSw
  import opened MemOps

  // ------------------------------------------------------------ NOP regions

  function NopBytes(k: nat): (b: seq<byte>)
    ensures |b| == 4 * k
  {
    if k == 0 then [] else NopBytes(k - 1) + Word(NOP)
  }

  function Nops(k: nat): (ts: seq<Token>)
    ensures |ts| == k && NoFin(ts)
  {
    if k == 0 then [] else Nops(k - 1) + [Nop]
  }

  lemma NopHolds(b: Block, o: int)
    requires 0 <= o && o + 4 <= |b| && b[o..o + 4] == Word(NOP)
    ensures Holds(b, o, Nop)
  {
    WordReads(NOP);
    assert Word(NOP)[0..4] == Word(NOP);
    SameWord(b, Word(NOP), o, 0);
    HoldsIs(b, o, Nop);
  }

  lemma {:induction false} NopsLaid(k: nat)
    ensures Laid(NopBytes(k), 0, Nops(k)) && SizeAll(Nops(k)) == 4 * k
  {
    if k == 0 {
      LaidNil([], 0);
    } else {
      var b, c := NopBytes(k - 1), NopBytes(k);
      NopsLaid(k - 1);
      assert c[..|b|] == b && c[|b|..|b| + 4] == Word(NOP);
      NopHolds(c, |b|);
      LaidMore(b, c, Nops(k - 1), Nop);
    }
  }

  lemma {:induction false} NopsSilent(s: seq<byte>, k: nat)
    ensures ReadToks(s, Nops(k)) == Read([])
  {
    if k > 0 {
      NopsSilent(s, k - 1);
      ReadAppend(s, Nops(k - 1), [Nop]);
      assert [Nop][1..] == [];
    }
  }

  /** fdt_nop_region_ (lines 51-57): whole words are written, as many as touch
      the region. */
  method NopRegion(mem: array<byte>, start: int, len: int)
    requires 0 <= start && 0 <= len && start + Align4(len) <= mem.Length
    modifies mem
    ensures mem[..] == Overwrite(old(mem[..]), start, NopBytes(Align4(len) / 4))
  {
    ghost var was := mem[..];
    ghost var k := 0;
    var p := start;
    AlignUp(len);
    assert mem[..] == Overwrite(was, start, NopBytes(0));
    while p < start + len
      invariant p == start + 4 * k && 0 <= k && 4 * k <= Align4(len)
      invariant mem[..] == Overwrite(was, start, NopBytes(k))
      decreases start + len - p
    {
      NextWord(len, k);
      Memcpy(mem, p, Word(NOP));
      OverwriteMore(was, start, NopBytes(k), Word(NOP));
      p := p + 4;
      k := k + 1;
    }
    LastWord(len, k);
  }

  lemma NextWord(len: int, k: int)
    requires 0 <= k && 4 * k < len
    ensures 4 * k + 4 <= Align4(len)
  {
  }

  lemma LastWord(len: int, k: int)
    requires 0 <= k && len <= 4 * k <= Align4(len)
    ensures k == Align4(len) / 4
  {
  }

  // -------------------------------------------------------------- nop_node

  /** The walk stays in the block and on word boundaries. */
  lemma {:induction false} WalkBound(b: Block, o: int, d: int)
    requires 0 <= o && o % 4 == 0 && d >= 0
    ensures var r := WalkNode(b, o, d); r.0 >= 0 ==> r.0 % 4 == 0 && r.0 <= |b|
    decreases |b| - o
  {
    var (tag, next) := NextTag(b, o);
    if tag == END_NODE {
      NextAligned(b, o);
      AlignShift(o, 4);
      if d > 0 { WalkBound(b, next, d - 1); }
    } else if tag == PROP || tag == NOP {
      NextAligned(b, o);
      WalkBound(b, next, d);
    }
  }

  lemma CheckNodeAligned(b: Block, offset: int)
    requires CheckNode(b, offset) >= 0
    ensures offset >= 0 && offset % 4 == 0 && CheckNode(b, offset) % 4 == 0 && CheckNode(b, offset) > offset
  {
    NextAligned(b, offset);
  }

  lemma NextBound(b: Block, offset: int, d: int)
    requires offset >= 0 && d >= 0
    ensures var r := NextNode(b, offset, d); r.0 >= 0 ==> offset % 4 == 0 && r.0 % 4 == 0 && offset < r.0 <= |b|
  {
    if CheckNode(b, offset) >= 0 {
      CheckNodeAligned(b, offset);
      WalkBound(b, CheckNode(b, offset), d);
    }
  }

  /** On any block, well-formed or not, the region to overwrite lies in it. */
  lemma {:induction false} NodeEndBound(b: Block, offset: int, d: int)
    requires offset >= 0 && d >= 0
    ensures var e := NodeEnd(b, offset, d); e >= 0 ==> offset % 4 == 0 && e % 4 == 0 && offset < e <= |b|
    decreases |b| - offset
  {
    NextBound(b, offset, d);
    var (o, e) := NextNode(b, offset, d);
    if o >= 0 && e >= 0 {
      NodeEndBound(b, o, e);
    }
  }

  /** The block with the bytes from o up to e made FDT_NOP. */
  ghost function Nopped(b: Block, o: int, e: int): Block
    requires 0 <= o <= e <= |b| && (e - o) % 4 == 0
  {
    Overwrite(b, o, NopBytes((e - o) / 4))
  }

  /** fdt_nop_node (lines 83-94) in a buffer whose structure block is the
      sizeStruct bytes from offStruct on. */
  method FdtNopNode(mem: array<byte>, offStruct: int, sizeStruct: int, node: int) returns (r: int)
    requires 0 <= offStruct && 0 <= sizeStruct < U32 && offStruct + sizeStruct <= mem.Length
    modifies mem
    ensures r == if NodeEnd(old(mem[..])[offStruct..offStruct + sizeStruct], node, 0) < 0
                 then NodeEnd(old(mem[..])[offStruct..offStruct + sizeStruct], node, 0) else 0
    ensures r < 0 ==> mem[..] == old(mem[..])
    ensures r == 0 ==>
      NoppedNode(old(mem[..])[offStruct..offStruct + sizeStruct], mem[..][offStruct..offStruct + sizeStruct], node)
    ensures r == 0 ==> Changed(old(mem[..]), mem[..], offStruct, sizeStruct)
  {
    var b := mem[..][offStruct..offStruct + sizeStruct];
    var e := FdtNodeEnd(b, node);
    if e < 0 {
      return e;
    }
    NodeWords(b, node);
    NopOut(mem, offStruct, sizeStruct, node, e);
    return 0;
  }

  /** The block with the node at `node` made FDT_NOP. */
  ghost predicate NoppedNode(b: Block, b': Block, node: int) {
    var e := NodeEnd(b, node, 0);
    0 <= node <= e <= |b| && (e - node) % 4 == 0 && b' == Nopped(b, node, e)
  }

  lemma NodeWords(b: Block, node: int)
    requires NodeEnd(b, node, 0) >= 0
    ensures 0 <= node < NodeEnd(b, node, 0) <= |b| && (NodeEnd(b, node, 0) - node) % 4 == 0
  {
    if node >= 0 {
      NodeEndBound(b, node, 0);
      WholeWords(node, NodeEnd(b, node, 0));
    }
  }

  /** The bytes of the block from o up to e become FDT_NOP. */
  method NopOut(mem: array<byte>, offStruct: int, sizeStruct: int, o: int, e: int)
    requires 0 <= offStruct && offStruct + sizeStruct <= mem.Length && 0 <= o <= e <= sizeStruct && (e - o) % 4 == 0
    modifies mem
    ensures mem[..][offStruct..offStruct + sizeStruct] == Nopped(old(mem[..])[offStruct..offStruct + sizeStruct], o, e)
    ensures Changed(old(mem[..]), mem[..], offStruct, sizeStruct)
  {
    ghost var was := mem[..];
    WholeRegion(e - o);
    NopRegion(mem, offStruct + o, e - o);
    NamePatched(was, mem[..], offStruct, sizeStruct, o, NopBytes((e - o) / 4));
  }

  lemma WholeRegion(n: int)
    requires n % 4 == 0
    ensures Align4(n) == n
  {
  }

  lemma WholeWords(o: int, e: int)
    requires o % 4 == 0 && e % 4 == 0 && o <= e
    ensures (e - o) % 4 == 0 && Align4(e - o) == e - o
  {
  }

  // ----------------------------------------------- what the tree reads as

  /** The tokens of the node become FDT_NOP, the others stay. */
  lemma NopRun(b: Block, toks: seq<Token>, i: int, e: int)
    requires Run(b, toks) && 0 <= i <= e <= |toks|
    ensures Off(toks, i) <= Off(toks, e) <= |b| && (Off(toks, e) - Off(toks, i)) % 4 == 0
    ensures Run(Nopped(b, Off(toks, i), Off(toks, e)), toks[..i] + Nops((Off(toks, e) - Off(toks, i)) / 4) + toks[e..])
  {
    OffSlice(toks, i, e);
    OffGrows(toks, i, e);
    RunBound(b, toks, e);
    var k := (Off(toks, e) - Off(toks, i)) / 4;
    NopsLaid(k);
    ReplaceRun(b, Nopped(b, Off(toks, i), Off(toks, e)), toks, i, e, Nops(k), NopBytes(k));
  }

  /** fdt_nop_node at the node p of a tree that the blob reads as: the call
      succeeds, and afterwards the blob reads as the tree without that node. */
  lemma NopNodeTree(b: Block, s: seq<byte>, toks: seq<Token>, i: int, t: Tree, p: Path) returns (e: int)
    requires Run(b, toks) && NodeAt(s, toks, i, t, p) && p != []
    ensures i < e <= |toks| && NodeEnd(b, Off(toks, i), 0) == Off(toks, e)
    ensures Off(toks, i) <= Off(toks, e) <= |b| && (Off(toks, e) - Off(toks, i)) % 4 == 0
    ensures ReadAll(Nopped(b, Off(toks, i), Off(toks, e)), s, 0) == Read(Flatten(RemoveAt(t, p)))
  {
    e := NodeSegment(s, toks, i, t, p);
    NodeEndFound(b, toks, i, 0);
    NopRun(b, toks, i, e);
    var k := (Off(toks, e) - Off(toks, i)) / 4;
    RunReads(Nopped(b, Off(toks, i), Off(toks, e)), s, toks[..i] + Nops(k) + toks[e..]);
    ReadThree(s, toks[..i], Nops(k), toks[e..]);
    NopsSilent(s, k);
    WithoutNode(t, p);
  }

  /** Nesting what is read gives that tree. */
  lemma NopNodeRebuilds(t: Tree, p: Path)
    requires ValidPath(t, p) && p != []
    ensures Rebuild(Flatten(RemoveAt(t, p))) == Forest([RemoveAt(t, p)], [])
  {
    var u := RemoveAt(t, p);
    assert FlattenAll([u]) + [] == Flatten(u);
    RebuildFlatten([u], []);
  }

  /** Every token outside the node is where it was, with the same bytes. */
  lemma NopKeepsOthers(b: Block, toks: seq<Token>, i: int, e: int, j: int)
    requires Run(b, toks) && 0 <= i <= e <= |toks| && 0 <= j < |toks| && (j < i || e <= j)
    requires Off(toks, i) <= Off(toks, e) <= |b| && (Off(toks, e) - Off(toks, i)) % 4 == 0
    ensures Holds(Nopped(b, Off(toks, i), Off(toks, e)), Off(toks, j), toks[j])
  {
    var b' := Nopped(b, Off(toks, i), Off(toks, e));
    RunHolds(b, toks, j);
    HoldsBound(b, Off(toks, j), toks[j]);
    OffNext(toks, j);
    if j < i {
      OffGrows(toks, j + 1, i);
    } else {
      OffGrows(toks, e, j);
    }
    OverwriteOutside(b, Off(toks, i), NopBytes((Off(toks, e) - Off(toks, i)) / 4), Off(toks, j), Off(toks, j + 1));
    HoldsMoved(b, b', Off(toks, j), Off(toks, j), toks[j]);
  }
}
