/** The five ways in which simple_malloc and simple_free change the heap. Each
    is the sequence of stores the C code performs; each keeps `Sound`. */
module HeapSteps {
  import opened SizeFlag
  import opened FreeList
  import opened HeapModel

  // ------------------------------------------------------------------ frames

  ghost predicate Within(h: Heap, x: int) {
    0 <= h.base <= x < h.end + HeadSize(h.ptr) <= |h.mem|
  }

  /** Nothing in the region changes outside [lo, hi) but link cells of the list. */
  ghost predicate Frame(h: Heap, lo: int, hi: int, m': Mem) {
    && |m'| == |h.mem|
    && forall x {:trigger m'[x]} :: Within(h, x) && !(lo <= x < hi) && !LinkCell(h.ptr, h.head, h.nodes, x) ==>
       m'[x] == h.mem[x]
  }

  lemma FrameCell(h: Heap, lo: int, hi: int, m': Mem, k: int, x: int)
    requires Sound(h) && Frame(h, lo, hi, m') && 0 <= k < |h.blocks|
    requires h.blocks[k].addr <= x < h.blocks[k].addr + h.blocks[k].size && !(lo <= x < hi)
    requires !h.blocks[k].free || (x != h.blocks[k].addr + 8 && x != h.blocks[k].addr + 8 + h.ptr)
    ensures 0 <= x < |h.mem| && m'[x] == h.mem[x]
  {
    Unfold(h);
    InRegion(h.blocks, h.base, h.end, HeadSize(h.ptr), k);
    NotLinkCell(h, k, x);
  }

  lemma FrameHeader(h: Heap, lo: int, hi: int, m': Mem, k: int)
    requires Sound(h) && Frame(h, lo, hi, m') && 0 <= k < |h.blocks|
    requires h.blocks[k].addr + 8 <= lo || hi <= h.blocks[k].addr
    ensures SameHeader(h.mem, m', h.blocks[k])
  {
    Unfold(h);
    FrameCell(h, lo, hi, m', k, h.blocks[k].addr);
    FrameCell(h, lo, hi, m', k, h.blocks[k].addr + 4);
  }

  lemma FrameEnd(h: Heap, lo: int, hi: int, m': Mem)
    requires Sound(h) && Frame(h, lo, hi, m') && hi <= h.end
    ensures SameHeader(h.mem, m', EndBlock(h.end))
  {
    Unfold(h);
    InRegion(h.blocks, h.base, h.end, HeadSize(h.ptr), 0);
    EndNotLinkCell(h, h.end);
    EndNotLinkCell(h, h.end + 4);
  }

  lemma FrameFooter(h: Heap, lo: int, hi: int, m': Mem, k: int)
    requires Sound(h) && Frame(h, lo, hi, m') && 0 <= k < |h.blocks| - 1 && h.blocks[k].free
    requires h.blocks[k].addr + h.blocks[k].size <= lo || hi <= h.blocks[k].addr + h.blocks[k].size - 4
    ensures FooterAt(h.mem, h.blocks[k])
    ensures var f := h.blocks[k].addr + h.blocks[k].size - 4; m'[f] == h.mem[f]
  {
    Unfold(h);
    FrameCell(h, lo, hi, m', k, h.blocks[k].addr + h.blocks[k].size - 4);
  }

  /** What the memory right after a step must hold so that blocks i, ..., j - 1
      can be read as `mid`. */
  ghost predicate Rewritten(h: Heap, i: int, j: int, mid: seq<Block>, hi: int, m': Mem) {
    && 0 <= i < j <= |h.blocks| && 0 < |mid|
    && (var s := h.blocks[j - 1].addr + h.blocks[j - 1].size; hi == s || hi == s + 8)
    && Frame(h, h.blocks[i].addr, hi, m')
    && (forall k {:trigger PrevIn(PrevFree(h.blocks, i), mid, k)} :: 0 <= k < |mid| ==>
          HeaderAt(m', mid[k], PrevIn(PrevFree(h.blocks, i), mid, k)))
    && HeaderAt(m', Successor(h.blocks, h.end, j - 1), mid[|mid| - 1].free)
    && (forall k :: 0 <= k < |mid| && mid[k].free && (k + 1 < |mid| || j < |h.blocks|) ==> FooterAt(m', mid[k]))
  }

  lemma RebuildHeaders(h: Heap, i: int, j: int, mid: seq<Block>, hi: int, m': Mem)
    requires Sound(h) && Rewritten(h, i, j, mid, hi, m')
    ensures Headers(m', Replace(h.blocks, i, j, mid), h.end)
  {
    Unfold(h);
    var hs := HeadSize(h.ptr);
    var lo := h.blocks[i].addr;
    SuccessorAddr(h.blocks, h.base, h.end, hs, j - 1);
    forall k | 0 <= k < |h.blocks| && (k < i || j < k)
      ensures SameHeader(h.mem, m', h.blocks[k])
    {
      if k < i { Ordered(h.blocks, h.base, h.end, hs, k, i); } else { Ordered(h.blocks, h.base, h.end, hs, j, k); }
      FrameHeader(h, lo, hi, m', k);
    }
    if j < |h.blocks| {
      InRegion(h.blocks, h.base, h.end, hs, j);
      FrameEnd(h, lo, hi, m');
    }
    ReplaceHeaders(h.mem, m', h.blocks, h.end, i, j, mid);
  }

  lemma RebuildFooters(h: Heap, i: int, j: int, mid: seq<Block>, hi: int, m': Mem)
    requires Sound(h) && Rewritten(h, i, j, mid, hi, m')
    ensures Footers(m', Replace(h.blocks, i, j, mid))
  {
    Unfold(h);
    var hs := HeadSize(h.ptr);
    var lo := h.blocks[i].addr;
    SuccessorAddr(h.blocks, h.base, h.end, hs, j - 1);
    forall k | 0 <= k < |h.blocks| - 1 && (k < i || j <= k) && h.blocks[k].free
      ensures FooterAt(h.mem, h.blocks[k])
      ensures var f := h.blocks[k].addr + h.blocks[k].size - 4; m'[f] == h.mem[f]
    {
      if k < i { Ordered(h.blocks, h.base, h.end, hs, k, i); }
      if j < k { Ordered(h.blocks, h.base, h.end, hs, j, k); }
      FrameFooter(h, lo, hi, m', k);
    }
    ReplaceFooters(h.mem, m', h.blocks, i, j, mid);
  }

  /** Headers and footers of a heap whose blocks i, ..., j - 1 became `mid`. */
  lemma Rebuild(h: Heap, i: int, j: int, mid: seq<Block>, hi: int, m': Mem)
    requires Sound(h) && Rewritten(h, i, j, mid, hi, m')
    ensures Headers(m', Replace(h.blocks, i, j, mid), h.end)
    ensures Footers(m', Replace(h.blocks, i, j, mid))
  {
    RebuildHeaders(h, i, j, mid, hi, m');
    RebuildFooters(h, i, j, mid, hi, m');
  }

  /** The header of block i, and of whatever follows it, as the code reads them. */
  lemma HeaderReads(h: Heap, i: int)
    requires Sound(h) && 0 <= i < |h.blocks|
    ensures var b := h.blocks[i]; var s := b.addr + b.size; var nb := Successor(h.blocks, h.end, i);
      && h.base <= b.addr && s <= h.end && s + HeadSize(h.ptr) <= |h.mem| && b.size % 8 == 0 && b.addr % 8 == 0
      && b.size >= HeadSize(h.ptr)
      && HeaderAt(h.mem, b, PrevFree(h.blocks, i))
      && nb.addr == s && HeaderAt(h.mem, nb, b.free) && nb.size % 8 == 0
  {
    Unfold(h);
    InRegion(h.blocks, h.base, h.end, HeadSize(h.ptr), i);
    SuccessorAddr(h.blocks, h.base, h.end, HeadSize(h.ptr), i);
    assert PrevFree(h.blocks, i) || !PrevFree(h.blocks, i);
    assert PrevFree(h.blocks, i + 1) == h.blocks[i].free;
  }

  /** Block i lies inside the memory. */
  ghost predicate Placed(h: Heap, i: int) {
    && 0 <= i < |h.blocks| && (h.ptr == 4 || h.ptr == 8)
    && 0 < h.blocks[i].addr && h.blocks[i].addr + h.blocks[i].size + HeadSize(h.ptr) <= |h.mem|
    && h.blocks[i].size >= HeadSize(h.ptr)
  }

  lemma PlacedAt(h: Heap, i: int)
    requires Sound(h) && 0 <= i < |h.blocks|
    ensures Placed(h, i)
  {
    Unfold(h);
    HeaderReads(h, i);
  }

  /** The header after block i survives changes left of it. */
  lemma NextHeader(h: Heap, i: int, lo: int, hi: int, m: Mem)
    requires Sound(h) && 0 <= i < |h.blocks| && Frame(h, lo, hi, m) && hi <= h.blocks[i].addr + h.blocks[i].size
    ensures var s := h.blocks[i].addr + h.blocks[i].size;
      && !LinkCell(h.ptr, h.head, h.nodes, s + 4)
      && HeaderAt(m, Successor(h.blocks, h.end, i), h.blocks[i].free)
  {
    Unfold(h);
    var s := h.blocks[i].addr + h.blocks[i].size;
    HeaderReads(h, i);
    if i + 1 < |h.blocks| {
      FrameHeader(h, lo, hi, m, i + 1);
      NotLinkCell(h, i + 1, s + 4);
    } else {
      FrameEnd(h, lo, hi, m);
      EndNotLinkCell(h, s + 4);
    }
  }

  /** A store to a cell that is no link cell keeps the list. */
  lemma StoreKeepsLinks(m: Mem, p: int, head: int, nodes: seq<int>, x: int, v: int)
    requires Linked(m, p, head, nodes) && 0 <= x < |m| && !LinkCell(p, head, nodes, x)
    ensures Linked(m[x := v], p, head, nodes)
  {
    LinkedFrame(m, m[x := v], p, head, nodes);
  }

  // ------------------------------------------------------- taking a block

  /** The neighbours that block i has on the list can be reached. */
  lemma OnList(h: Heap, i: int, k: int)
    requires Sound(h) && 0 <= i < |h.blocks|
    requires 0 <= k < |h.nodes| && h.nodes[k] == h.blocks[i].addr + 8
    ensures var a := h.blocks[i].addr;
      && 0 <= a && 0 < h.ptr && a + 8 + h.ptr < |h.mem|
      && NodeFits(h.mem, h.ptr, h.mem[a + 8]) && NodeFits(h.mem, h.ptr, h.mem[a + 8 + h.ptr])
  {
    Unfold(h);
    HeaderReads(h, i);
    Neighbours(h.mem, h.ptr, h.head, h.nodes, k);
  }

  /** A store off the list, then `list_del`. */
  lemma StoreThenDel(m: Mem, p: int, head: int, nodes: seq<int>, k: int, x: int, v: int)
    requires Linked(m, p, head, nodes) && Spaced(p, head, nodes) && 0 <= k < |nodes|
    requires 0 <= x < |m| && !LinkCell(p, head, nodes, x)
    ensures var m1 := m[x := v];
      NodeFits(m1, p, nodes[k]) && NodeFits(m1, p, m1[nodes[k]]) && NodeFits(m1, p, m1[nodes[k] + p])
    ensures var m' := ListDel(m[x := v], p, nodes[k]);
      && Linked(m', p, head, Without(nodes, k))
      && m'[x] == v
      && forall y {:trigger m'[y]} :: 0 <= y < |m| && y != x && !LinkCell(p, head, nodes, y) ==> m'[y] == m[y]
  {
    StoreKeepsLinks(m, p, head, nodes, x, v);
    DelLinks(m[x := v], p, head, nodes, k);
  }

  /** `StoreThenDel` on the list of a heap. */
  lemma HeapDel(h: Heap, k: int, x: int, v: int)
    requires Layout(h) && Tiled(h.blocks, h.base, h.end, HeadSize(h.ptr)) && ListsFree(h.blocks, h.nodes)
    requires Linked(h.mem, h.ptr, h.head, h.nodes) && 0 <= k < |h.nodes|
    requires 0 <= x < |h.mem| && !LinkCell(h.ptr, h.head, h.nodes, x)
    ensures var m1 := h.mem[x := v]; var n := h.nodes[k];
      NodeFits(m1, h.ptr, n) && NodeFits(m1, h.ptr, m1[n]) && NodeFits(m1, h.ptr, m1[n + h.ptr])
    ensures var m' := ListDel(h.mem[x := v], h.ptr, h.nodes[k]);
      && Linked(m', h.ptr, h.head, Without(h.nodes, k))
      && m'[x] == v
      && forall y {:trigger m'[y]} :: 0 <= y < |m'| && y != x && !LinkCell(h.ptr, h.head, h.nodes, y) ==>
         m'[y] == h.mem[y]
  {
    NodesSpaced(h);
    StoreThenDel(h.mem, h.ptr, h.head, h.nodes, k, x, v);
  }

  /** Clearing the FREE flag of block i and taking it off the list
      (mm/simple_mm.c:90-91). */
  lemma UnlinkEffect(h: Heap, i: int, k: int, pf: bool, m: Mem)
    requires Layout(h) && Tiled(h.blocks, h.base, h.end, HeadSize(h.ptr)) && ListsFree(h.blocks, h.nodes)
    requires Linked(h.mem, h.ptr, h.head, h.nodes)
    requires 0 <= i < |h.blocks| && h.blocks[i].free && HeaderAt(h.mem, h.blocks[i], pf)
    requires 0 <= k < |h.nodes| && h.nodes[k] == h.blocks[i].addr + 8
    requires var a := h.blocks[i].addr; 0 <= a && a + 8 + h.ptr < |h.mem|
    requires var a := h.blocks[i].addr; var m1 := h.mem[a + 4 := ClrFree(h.mem[a + 4])];
      && NodeFits(m1, h.ptr, m1[a + 8]) && NodeFits(m1, h.ptr, m1[a + 8 + h.ptr])
      && m == ListDel(m1, h.ptr, a + 8)
    ensures Linked(m, h.ptr, h.head, Without(h.nodes, k))
    ensures Frame(h, h.blocks[i].addr + 4, h.blocks[i].addr + 5, m)
    ensures HeaderAt(m, h.blocks[i].(free := false), pf)
  {
    var b := h.blocks[i];
    var a := b.addr;
    PackClrFree(b.size, true, pf, b.poisoned);
    NotLinkCell(h, i, a);
    NotLinkCell(h, i, a + 4);
    HeapDel(h, k, a + 4, ClrFree(h.mem[a + 4]));
  }

  // The block is handed out whole (mm/simple_mm.c:112-123).

  lemma TakeBlocks(h: Heap, i: int, k: int)
    requires Sound(h) && 0 <= i < |h.blocks| && h.blocks[i].free
    requires 0 <= k < |h.nodes| && h.nodes[k] == h.blocks[i].addr + 8
    ensures ListsFree(Replace(h.blocks, i, i + 1, [h.blocks[i].(free := false)]), Without(h.nodes, k))
    ensures Tiled(Replace(h.blocks, i, i + 1, [h.blocks[i].(free := false)]), h.base, h.end, HeadSize(h.ptr))
  {
    Unfold(h);
    var hs := HeadSize(h.ptr);
    var b := h.blocks[i];
    var mid := [b.(free := false)];
    ReplaceTiled(h.blocks, h.base, h.end, hs, i, i + 1, mid);
    WithoutMembers(h.nodes, k);
    forall n
      ensures Listed(Without(h.nodes, k), n) <==> IsFreeNode(Replace(h.blocks, i, i + 1, mid), n)
    {
      ReplaceFreeNode(h.blocks, h.base, h.end, hs, i, i + 1, mid, n);
      OnlyStartsInside(h, i, n);
    }
  }

  /** Of the free nodes, only its own lies in block i. */
  lemma OnlyStartsInside(h: Heap, i: int, n: int)
    requires Tiled(h.blocks, h.base, h.end, HeadSize(h.ptr)) && 0 < HeadSize(h.ptr) && 0 <= i < |h.blocks|
    ensures IsFreeNode(h.blocks, n) && h.blocks[i].addr <= n - 8 < h.blocks[i].addr + h.blocks[i].size ==>
      n == h.blocks[i].addr + 8
  {
    if IsFreeNode(h.blocks, n) && h.blocks[i].addr <= n - 8 < h.blocks[i].addr + h.blocks[i].size {
      var q :| 0 <= q < |h.blocks| && h.blocks[q].free && n == h.blocks[q].addr + 8;
      OneOwner(h.blocks, h.base, h.end, HeadSize(h.ptr), i, q, n - 8);
    }
  }

  lemma TakeWholeMemory(h: Heap, i: int, m: Mem, m': Mem)
    requires Sound(h) && 0 <= i < |h.blocks| && h.blocks[i].free
    requires Frame(h, h.blocks[i].addr + 4, h.blocks[i].addr + 5, m)
    requires HeaderAt(m, h.blocks[i].(free := false), PrevFree(h.blocks, i))
    requires var s := h.blocks[i].addr + h.blocks[i].size;
      0 <= s && s + 4 < |m| && m' == m[s + 4 := ClrPrevFree(m[s + 4])]
    ensures Frame(h, h.blocks[i].addr, h.blocks[i].addr + h.blocks[i].size + 8, m')
    ensures HeaderAt(m', h.blocks[i].(free := false), PrevFree(h.blocks, i))
    ensures HeaderAt(m', Successor(h.blocks, h.end, i), false)
  {
    Unfold(h);
    var b := h.blocks[i];
    HeaderReads(h, i);
    var nb := Successor(h.blocks, h.end, i);
    NextHeader(h, i, b.addr + 4, b.addr + 5, m);
    PackClrPrevFree(nb.size, nb.free, true, nb.poisoned);
  }

  lemma TakeWholeLinks(h: Heap, i: int, k: int, m: Mem, v: int)
    requires Sound(h) && 0 <= i < |h.blocks| && 0 <= k < |h.nodes| && |m| == |h.mem|
    requires Linked(m, h.ptr, h.head, Without(h.nodes, k))
    ensures var x := h.blocks[i].addr + h.blocks[i].size + 4;
      0 <= x < |m| && Linked(m[x := v], h.ptr, h.head, Without(h.nodes, k))
  {
    var b := h.blocks[i];
    HeaderReads(h, i);
    PlacedAt(h, i);
    NextHeader(h, i, b.addr + 4, b.addr + 5, h.mem);
    NotLinkCellWithout(h, k, b.addr + b.size + 4);
    StoreKeepsLinks(m, h.ptr, h.head, Without(h.nodes, k), b.addr + b.size + 4, v);
  }

  lemma TakeWholeSound(h: Heap, i: int, k: int, m: Mem, h': Heap)
    requires Sound(h) && 0 <= i < |h.blocks| && h.blocks[i].free
    requires 0 <= k < |h.nodes| && h.nodes[k] == h.blocks[i].addr + 8
    requires h.blocks[i].size >= HeadSize(h.ptr) + MIN_BLOCK_SIZE
    requires Linked(m, h.ptr, h.head, Without(h.nodes, k))
    requires Frame(h, h.blocks[i].addr + 4, h.blocks[i].addr + 5, m)
    requires HeaderAt(m, h.blocks[i].(free := false), PrevFree(h.blocks, i))
    requires var x := h.blocks[i].addr + h.blocks[i].size + 4;
      && 0 <= x < |m|
      && h' == Heap(h.ptr, h.head, h.base, h.end, m[x := ClrPrevFree(m[x])],
                    Replace(h.blocks, i, i + 1, [h.blocks[i].(free := false)]), Without(h.nodes, k))
    ensures Sound(h')
    ensures Frame(h, h.blocks[i].addr, h.blocks[i].addr + h.blocks[i].size + 8, h'.mem)
  {
    Unfold(h);
    var b := h.blocks[i];
    HeaderReads(h, i);
    TakeWholeLinks(h, i, k, m, ClrPrevFree(m[b.addr + b.size + 4]));
    TakeWholeMemory(h, i, m, h'.mem);
    TakeBlocks(h, i, k);
    ReplaceRoomy(h.blocks, HeadSize(h.ptr), i, i + 1, [b.(free := false)]);
    TakeWholeRebuilt(h, i, h'.mem);
    Fold(h');
  }

  lemma TakeWholeRebuilt(h: Heap, i: int, m3: Mem)
    requires Sound(h) && 0 <= i < |h.blocks| && h.blocks[i].free
    requires Frame(h, h.blocks[i].addr, h.blocks[i].addr + h.blocks[i].size + 8, m3)
    requires HeaderAt(m3, h.blocks[i].(free := false), PrevFree(h.blocks, i))
    requires HeaderAt(m3, Successor(h.blocks, h.end, i), false)
    ensures var blocks := Replace(h.blocks, i, i + 1, [h.blocks[i].(free := false)]);
      Headers(m3, blocks, h.end) && Footers(m3, blocks)
  {
    var b := h.blocks[i];
    Rebuild(h, i, i + 1, [b.(free := false)], b.addr + b.size + 8, m3);
  }

  lemma NotLinkCellWithout(h: Heap, k: int, x: int)
    requires 0 <= k < |h.nodes| && !LinkCell(h.ptr, h.head, h.nodes, x)
    ensures !LinkCell(h.ptr, h.head, Without(h.nodes, k), x)
  {
    var w := Without(h.nodes, k);
    forall i | 0 <= i < |w|
      ensures x != w[i] && x != w[i] + h.ptr
    {
      assert w[i] == h.nodes[if i < k then i else i + 1];
    }
  }

  // ------------------------------------------------------- splitting a block

  /** `list_add` on a heap whose list is to become h.nodes. */
  lemma HeapAdd(h: Heap, m: Mem, n: int, nodes: seq<int>)
    requires Layout(h) && Tiled(h.blocks, h.base, h.end, HeadSize(h.ptr)) && ListsFree(h.blocks, h.nodes)
    requires h.nodes == [n] + nodes && Linked(m, h.ptr, h.head, nodes) && |m| == |h.mem|
    ensures NodeFits(m, h.ptr, n) && NodeFits(m, h.ptr, h.head) && NodeFits(m, h.ptr, m[h.head + h.ptr])
    ensures var m' := ListAdd(m, h.ptr, n, h.head);
      && Linked(m', h.ptr, h.head, h.nodes)
      && forall x {:trigger m'[x]} :: 0 <= x < |m'| && !LinkCell(h.ptr, h.head, h.nodes, x) ==> m'[x] == m[x]
  {
    NodesSpaced(h);
    var i := BlockOf(h.blocks, h.nodes, 0);
    InRegion(h.blocks, h.base, h.end, HeadSize(h.ptr), i);
    AddLinks(m, h.ptr, h.head, nodes, n);
  }

  /** Link cells of a list with one more node. */
  lemma LinkCellMore(p: int, head: int, nodes: seq<int>, n: int, x: int)
    requires !LinkCell(p, head, nodes, x) && x != n && x != n + p
    ensures !LinkCell(p, head, [n] + nodes, x)
  {
    var all := [n] + nodes;
    forall i | 0 <= i < |all|
      ensures x != all[i] && x != all[i] + p
    {
      assert i > 0 ==> all[i] == nodes[i - 1];
    }
  }

  ghost function Used(b: Block, need: int): Block { Block(b.addr, need, false, b.poisoned) }

  ghost function Remainder(b: Block, need: int): Block { Block(b.addr + need, b.size - need, true, false) }

  ghost function Halves(b: Block, need: int): seq<Block> { [Used(b, need), Remainder(b, need)] }

  ghost predicate CanSplit(h: Heap, i: int, k: int, need: int) {
    && Sound(h) && Placed(h, i) && h.blocks[i].free
    && 0 <= k < |h.nodes| && h.nodes[k] == h.blocks[i].addr + 8
    && need % 8 == 0 && need >= HeadSize(h.ptr) + MIN_BLOCK_SIZE
    && h.blocks[i].size - need >= HeadSize(h.ptr) + MIN_BLOCK_SIZE
  }

  /** Blocks and list after the split (mm/simple_mm.c:93-111). */
  ghost function SplitShape(h: Heap, i: int, k: int, need: int): Heap
    requires CanSplit(h, i, k, need)
  {
    h.(blocks := Replace(h.blocks, i, i + 1, Halves(h.blocks[i], need)),
       nodes := [h.blocks[i].addr + need + 8] + Without(h.nodes, k))
  }

  lemma HalvesTiled(b: Block, need: int, hs: int)
    requires b.addr % 8 == 0 && b.size % 8 == 0 && need % 8 == 0 && need >= hs && b.size - need >= hs
    ensures Tiled(Halves(b, need), b.addr, b.addr + b.size, hs)
  {
    Multiples(b.addr, need);
    Multiples(b.size, need);
  }

  lemma SplitBlocks(h: Heap, i: int, k: int, need: int)
    requires CanSplit(h, i, k, need)
    ensures var blocks := Replace(h.blocks, i, i + 1, Halves(h.blocks[i], need));
      && Tiled(blocks, h.base, h.end, HeadSize(h.ptr))
      && Roomy(blocks, HeadSize(h.ptr))
      && ListsFree(blocks, [h.blocks[i].addr + need + 8] + Without(h.nodes, k))
  {
    Unfold(h);
    var hs := HeadSize(h.ptr);
    var b := h.blocks[i];
    var mid := Halves(b, need);
    HeaderReads(h, i);
    HalvesTiled(b, need, hs);
    ReplaceTiled(h.blocks, h.base, h.end, hs, i, i + 1, mid);
    ReplaceRoomy(h.blocks, hs, i, i + 1, mid);
    SplitList(h, i, k, need);
  }

  lemma SplitList(h: Heap, i: int, k: int, need: int)
    requires CanSplit(h, i, k, need)
    ensures var h' := SplitShape(h, i, k, need); ListsFree(h'.blocks, h'.nodes)
  {
    Unfold(h);
    var hs := HeadSize(h.ptr);
    var b := h.blocks[i];
    var mid := Halves(b, need);
    var n0 := b.addr + need + 8;
    var h' := SplitShape(h, i, k, need);
    WithoutMembers(h.nodes, k);
    forall n
      ensures Listed(h'.nodes, n) <==> IsFreeNode(h'.blocks, n)
    {
      ReplaceFreeNode(h.blocks, h.base, h.end, hs, i, i + 1, mid, n);
      OnlyStartsInside(h, i, n);
      assert Listed(h'.nodes, n) <==> n == n0 || Listed(Without(h.nodes, k), n);
      assert IsFreeNode(mid, n) <==> n == n0 by { assert mid[1].free && !mid[0].free; }
    }
    assert Distinct(h'.nodes) by {
      OnlyStartsInside(h, i, n0);
      assert !Listed(Without(h.nodes, k), n0);
      DistinctCons(n0, Without(h.nodes, k));
    }
  }

  lemma DistinctCons(n: int, nodes: seq<int>)
    requires Distinct(nodes) && !Listed(nodes, n)
    ensures Distinct([n] + nodes)
  {
    var all := [n] + nodes;
    assert forall i :: 0 < i < |all| ==> all[i] == nodes[i - 1];
  }

  /** The three stores that build the header and the footer of the remainder
      (mm/simple_mm.c:98-104). */
  function BuildHeader(m: Mem, nb: int, rem: int): (r: Mem)
    requires 0 <= nb && nb + 4 < |m| && 0 <= nb + rem - 4 < |m|
    ensures |r| == |m|
  {
    m[nb := MAGIC][nb + rem - 4 := rem][nb + 4 := ClrPoisoned(ClrPrevFree(SetFree(rem)))]
  }

  lemma BuildHeaderReads(m: Mem, b: Block, need: int, hs: int)
    requires 0 <= b.addr && 8 < hs <= need && hs < b.size - need && b.addr + b.size <= |m| && (b.size - need) % 8 == 0
    ensures var r := BuildHeader(m, b.addr + need, b.size - need);
      && HeaderAt(r, Remainder(b, need), false)
      && FooterAt(r, Remainder(b, need))
      && forall x {:trigger r[x]} :: 0 <= x < |r| && !(b.addr + need <= x < b.addr + b.size) ==> r[x] == m[x]
  {
    var rem := b.size - need;
    PackUpdates(rem, false, false, false);
    PackUpdates(rem, true, false, false);
  }

  /** The list through the split: off the old block, on the new one. */
  lemma SplitLinks(h: Heap, i: int, k: int, need: int, m2: Mem)
    requires CanSplit(h, i, k, need)
    requires |m2| == |h.mem| && Linked(m2, h.ptr, h.head, Without(h.nodes, k))
    ensures var b := h.blocks[i];
      && 0 <= b.addr && b.addr + b.size <= |h.mem|
      && Linked(BuildHeader(m2, b.addr + need, b.size - need), h.ptr, h.head, Without(h.nodes, k))
  {
    Unfold(h);
    var b := h.blocks[i];
    var nb := b.addr + need;
    var rem := b.size - need;
    HeaderReads(h, i);
    var m3 := BuildHeader(m2, nb, rem);
    forall x | 0 <= x < |m2| && LinkCell(h.ptr, h.head, Without(h.nodes, k), x)
      ensures m3[x] == m2[x]
    {
      if x == nb || x == nb + 4 || x == nb + rem - 4 {
        NotLinkCell(h, i, x);
        NotLinkCellWithout(h, k, x);
      }
    }
    LinkedFrame(m2, m3, h.ptr, h.head, Without(h.nodes, k));
  }

  /** The cells that make up the two halves are off the new list. */
  lemma SplitCells(h: Heap, i: int, k: int, need: int, x: int)
    requires CanSplit(h, i, k, need)
    requires var b := h.blocks[i];
      x in {b.addr, b.addr + 4, b.addr + need, b.addr + need + 4, b.addr + b.size - 4}
    ensures !LinkCell(h.ptr, h.head, SplitShape(h, i, k, need).nodes, x)
  {
    Unfold(h);
    var b := h.blocks[i];
    var mid := Halves(b, need);
    SplitBlocks(h, i, k, need);
    ReplaceAt(h.blocks, i, i + 1, mid, i);
    ReplaceAt(h.blocks, i, i + 1, mid, i + 1);
    NotLinkCell(SplitShape(h, i, k, need), if x < b.addr + need then i else i + 1, x);
  }

  /** Outside the block only link cells of the old list change. */
  lemma SplitFrame(h: Heap, i: int, k: int, need: int, m2: Mem, m3: Mem, m4: Mem, m5: Mem, w: int)
    requires CanSplit(h, i, k, need)
    requires |h.mem| == |m2| == |m3| == |m4| && 0 <= h.blocks[i].addr && h.blocks[i].addr + 4 < |m4|
    requires var b := h.blocks[i];
      && Frame(h, b.addr + 4, b.addr + 5, m2)
      && (forall x {:trigger m3[x]} :: 0 <= x < |m3| && !(b.addr + need <= x < b.addr + b.size) ==> m3[x] == m2[x])
      && (forall x {:trigger m4[x]} ::
        0 <= x < |m4| && !LinkCell(h.ptr, h.head, [b.addr + need + 8] + Without(h.nodes, k), x) ==> m4[x] == m3[x])
      && m5 == m4[b.addr + 4 := w]
    ensures Frame(h, h.blocks[i].addr, h.blocks[i].addr + h.blocks[i].size, m5)
  {
    Unfold(h);
    var b := h.blocks[i];
    forall x | Within(h, x) && !(b.addr <= x < b.addr + b.size) && !LinkCell(h.ptr, h.head, h.nodes, x)
      ensures m5[x] == h.mem[x]
    {
      NotLinkCellWithout(h, k, x);
      LinkCellMore(h.ptr, h.head, Without(h.nodes, k), b.addr + need + 8, x);
    }
  }

  lemma SplitSound(h: Heap, i: int, k: int, need: int, m5: Mem, h': Heap)
    requires CanSplit(h, i, k, need)
    requires Linked(m5, h.ptr, h.head, [h.blocks[i].addr + need + 8] + Without(h.nodes, k))
    requires Frame(h, h.blocks[i].addr, h.blocks[i].addr + h.blocks[i].size, m5)
    requires HeaderAt(m5, Used(h.blocks[i], need), PrevFree(h.blocks, i))
    requires HeaderAt(m5, Remainder(h.blocks[i], need), false) && FooterAt(m5, Remainder(h.blocks[i], need))
    requires h' == Heap(h.ptr, h.head, h.base, h.end, m5, Replace(h.blocks, i, i + 1, Halves(h.blocks[i], need)),
                        [h.blocks[i].addr + need + 8] + Without(h.nodes, k))
    ensures Sound(h')
  {
    Unfold(h);
    var b := h.blocks[i];
    var mid := Halves(b, need);
    SplitBlocks(h, i, k, need);
    NextHeader(h, i, b.addr, b.addr + b.size, m5);
    Rebuild(h, i, i + 1, mid, b.addr + b.size, m5);
    Fold(h');
  }

  // ----------------------------------------------------- releasing a block

  ghost function Freed(b: Block): Block { b.(free := true) }

  /** Blocks and list once block i is marked free and listed
      (mm/simple_mm.c:183-185). */
  ghost function ReleaseShape(h: Heap, i: int): Heap
    requires 0 <= i < |h.blocks|
  {
    h.(blocks := Replace(h.blocks, i, i + 1, [Freed(h.blocks[i])]), nodes := [h.blocks[i].addr + 8] + h.nodes)
  }

  lemma ReleaseBlocks(h: Heap, i: int)
    requires Sound(h) && 0 <= i < |h.blocks| && !h.blocks[i].free
    ensures var blocks := Replace(h.blocks, i, i + 1, [Freed(h.blocks[i])]);
      && Tiled(blocks, h.base, h.end, HeadSize(h.ptr))
      && Roomy(blocks, HeadSize(h.ptr))
      && ListsFree(blocks, [h.blocks[i].addr + 8] + h.nodes)
  {
    Unfold(h);
    var hs := HeadSize(h.ptr);
    var b := h.blocks[i];
    var mid := [Freed(b)];
    ReplaceTiled(h.blocks, h.base, h.end, hs, i, i + 1, mid);
    ReplaceRoomy(h.blocks, hs, i, i + 1, mid);
    ReleaseListed(h, i);
  }

  lemma ReleaseListed(h: Heap, i: int)
    requires Sound(h) && 0 <= i < |h.blocks| && !h.blocks[i].free
    ensures var h' := ReleaseShape(h, i); ListsFree(h'.blocks, h'.nodes)
  {
    Unfold(h);
    var b := h.blocks[i];
    var n0 := b.addr + 8;
    var mid := [Freed(b)];
    var h' := ReleaseShape(h, i);
    forall n
      ensures Listed(h'.nodes, n) <==> IsFreeNode(h'.blocks, n)
    {
      ReplaceFreeNode(h.blocks, h.base, h.end, HeadSize(h.ptr), i, i + 1, mid, n);
      UsedHoldsNoNode(h, i, n);
      assert Listed(h'.nodes, n) <==> n == n0 || Listed(h.nodes, n);
      assert IsFreeNode(mid, n) <==> n == n0 by { assert mid[0].free; }
    }
    UsedHoldsNoNode(h, i, n0);
    DistinctCons(n0, h.nodes);
  }

  /** A used block holds no node of the list. */
  lemma UsedHoldsNoNode(h: Heap, i: int, n: int)
    requires Sound(h) && 0 <= i < |h.blocks| && !h.blocks[i].free
    ensures h.blocks[i].addr <= n - 8 < h.blocks[i].addr + h.blocks[i].size ==>
      !IsFreeNode(h.blocks, n) && !Listed(h.nodes, n)
  {
    Unfold(h);
    if h.blocks[i].addr <= n - 8 < h.blocks[i].addr + h.blocks[i].size && IsFreeNode(h.blocks, n) {
      var q :| 0 <= q < |h.blocks| && h.blocks[q].free && n == h.blocks[q].addr + 8;
      OneOwner(h.blocks, h.base, h.end, HeadSize(h.ptr), i, q, n - 8);
    }
  }

  /** Cells of the block other than its links are off the new list, and so is
      the size word of the next header. */
  lemma ReleaseCells(h: Heap, i: int, x: int)
    requires Sound(h) && 0 <= i < |h.blocks| && !h.blocks[i].free
    requires var b := h.blocks[i]; x in {b.addr, b.addr + 4, b.addr + b.size - 4, b.addr + b.size + 4}
    ensures !LinkCell(h.ptr, h.head, [h.blocks[i].addr + 8] + h.nodes, x)
  {
    Unfold(h);
    var b := h.blocks[i];
    HeaderReads(h, i);
    if x == b.addr + b.size + 4 {
      NextHeader(h, i, b.addr, b.addr, h.mem);
    } else {
      NotLinkCell(h, i, x);
    }
    LinkCellMore(h.ptr, h.head, h.nodes, b.addr + 8, x);
  }

  /** Marking the block free and listing it. */
  lemma ReleaseList(h: Heap, i: int, m1: Mem)
    requires Sound(h) && 0 <= i < |h.blocks| && !h.blocks[i].free
    requires var a := h.blocks[i].addr; 0 <= a && a + 4 < |h.mem| && m1 == h.mem[a + 4 := SetFree(h.mem[a + 4])]
    ensures var a := h.blocks[i].addr;
      && NodeFits(m1, h.ptr, a + 8) && NodeFits(m1, h.ptr, h.head) && NodeFits(m1, h.ptr, m1[h.head + h.ptr])
    ensures var a := h.blocks[i].addr; var m2 := ListAdd(m1, h.ptr, a + 8, h.head);
      && Linked(m2, h.ptr, h.head, [a + 8] + h.nodes)
      && (forall x {:trigger m2[x]} :: 0 <= x < |m2| && !LinkCell(h.ptr, h.head, [a + 8] + h.nodes, x) ==>
        m2[x] == m1[x])
  {
    Unfold(h);
    var a := h.blocks[i].addr;
    HeaderReads(h, i);
    NotLinkCell(h, i, a + 4);
    StoreKeepsLinks(h.mem, h.ptr, h.head, h.nodes, a + 4, SetFree(h.mem[a + 4]));
    ReleaseBlocks(h, i);
    HeapAdd(ReleaseShape(h, i), m1, a + 8, h.nodes);
  }

  lemma ReleaseFrame(h: Heap, i: int, m1: Mem, m2: Mem)
    requires Sound(h) && 0 <= i < |h.blocks| && !h.blocks[i].free && |m2| == |m1|
    requires var a := h.blocks[i].addr; 0 <= a && a + 4 < |h.mem| && m1 == h.mem[a + 4 := SetFree(h.mem[a + 4])]
    requires var a := h.blocks[i].addr;
      forall x {:trigger m2[x]} :: 0 <= x < |m2| && !LinkCell(h.ptr, h.head, [a + 8] + h.nodes, x) ==> m2[x] == m1[x]
    ensures Frame(h, h.blocks[i].addr, h.blocks[i].addr + h.blocks[i].size, m2)
    ensures HeaderAt(m2, Freed(h.blocks[i]), PrevFree(h.blocks, i))
  {
    Unfold(h);
    var b := h.blocks[i];
    var a := b.addr;
    HeaderReads(h, i);
    ReleaseCells(h, i, a);
    ReleaseCells(h, i, a + 4);
    PackSetFree(b.size, false, PrevFree(h.blocks, i), b.poisoned);
    forall x | Within(h, x) && !(a <= x < a + b.size) && !LinkCell(h.ptr, h.head, h.nodes, x)
      ensures m2[x] == h.mem[x]
    {
      LinkCellMore(h.ptr, h.head, h.nodes, a + 8, x);
    }
  }

  lemma ReleasePlainMemory(h: Heap, i: int, m2: Mem, m3: Mem)
    requires Sound(h) && 0 <= i < |h.blocks| && !h.blocks[i].free
    requires Frame(h, h.blocks[i].addr, h.blocks[i].addr + h.blocks[i].size, m2)
    requires HeaderAt(m2, Freed(h.blocks[i]), PrevFree(h.blocks, i))
    requires var b := h.blocks[i]; var s := b.addr + b.size;
      && 0 <= s - 4 && s + 4 < |m2|
      && m3 == m2[s + 4 := SetPrevFree(m2[s + 4])][s - 4 := b.size]
    ensures Frame(h, h.blocks[i].addr, h.blocks[i].addr + h.blocks[i].size + 8, m3)
    ensures HeaderAt(m3, Freed(h.blocks[i]), PrevFree(h.blocks, i))
    ensures FooterAt(m3, Freed(h.blocks[i]))
    ensures HeaderAt(m3, Successor(h.blocks, h.end, i), true)
  {
    Unfold(h);
    var b := h.blocks[i];
    var s := b.addr + b.size;
    HeaderReads(h, i);
    NextHeader(h, i, b.addr, s, m2);
    var nb := Successor(h.blocks, h.end, i);
    PackSetPrevFree(nb.size, nb.free, false, nb.poisoned);
  }

  /** The next block is in use: set its PREV_FREE flag and write the footer
      (mm/simple_mm.c:192-197). */
  lemma ReleasePlainSound(h: Heap, i: int, m2: Mem, m3: Mem, h': Heap)
    requires Sound(h) && 0 <= i < |h.blocks| && !h.blocks[i].free
    requires Linked(m2, h.ptr, h.head, [h.blocks[i].addr + 8] + h.nodes)
    requires Frame(h, h.blocks[i].addr, h.blocks[i].addr + h.blocks[i].size, m2)
    requires HeaderAt(m2, Freed(h.blocks[i]), PrevFree(h.blocks, i))
    requires var b := h.blocks[i]; var s := b.addr + b.size;
      && 0 <= s - 4 && s + 4 < |m2|
      && m3 == m2[s + 4 := SetPrevFree(m2[s + 4])][s - 4 := b.size]
    requires h' == Heap(h.ptr, h.head, h.base, h.end, m3, Replace(h.blocks, i, i + 1, [Freed(h.blocks[i])]),
                        [h.blocks[i].addr + 8] + h.nodes)
    ensures Sound(h')
    ensures Frame(h, h.blocks[i].addr, h.blocks[i].addr + h.blocks[i].size + 8, m3)
  {
    Unfold(h);
    var b := h.blocks[i];
    var s := b.addr + b.size;
    ReleasePlainMemory(h, i, m2, m3);
    ReleasePlainLinks(h, i, m2, SetPrevFree(m2[s + 4]), b.size);
    ReleaseBlocks(h, i);
    ReleasePlainRebuilt(h, i, m3);
    Fold(h');
  }

  lemma ReleasePlainRebuilt(h: Heap, i: int, m3: Mem)
    requires Sound(h) && 0 <= i < |h.blocks| && !h.blocks[i].free
    requires Frame(h, h.blocks[i].addr, h.blocks[i].addr + h.blocks[i].size + 8, m3)
    requires HeaderAt(m3, Freed(h.blocks[i]), PrevFree(h.blocks, i))
    requires FooterAt(m3, Freed(h.blocks[i]))
    requires HeaderAt(m3, Successor(h.blocks, h.end, i), true)
    ensures var blocks := Replace(h.blocks, i, i + 1, [Freed(h.blocks[i])]);
      Headers(m3, blocks, h.end) && Footers(m3, blocks)
  {
    var b := h.blocks[i];
    Rebuild(h, i, i + 1, [Freed(b)], b.addr + b.size + 8, m3);
  }

  lemma ReleasePlainLinks(h: Heap, i: int, m2: Mem, v: int, w: int)
    requires Sound(h) && 0 <= i < |h.blocks| && !h.blocks[i].free && |m2| == |h.mem|
    requires Linked(m2, h.ptr, h.head, [h.blocks[i].addr + 8] + h.nodes)
    requires var s := h.blocks[i].addr + h.blocks[i].size; 0 <= s - 4 && s + 4 < |m2|
    ensures var s := h.blocks[i].addr + h.blocks[i].size;
      Linked(m2[s + 4 := v][s - 4 := w], h.ptr, h.head, [h.blocks[i].addr + 8] + h.nodes)
  {
    var s := h.blocks[i].addr + h.blocks[i].size;
    var nodes := [h.blocks[i].addr + 8] + h.nodes;
    ReleaseCells(h, i, s + 4);
    ReleaseCells(h, i, s - 4);
    StoreKeepsLinks(m2, h.ptr, h.head, nodes, s + 4, v);
    StoreKeepsLinks(m2[s + 4 := v], h.ptr, h.head, nodes, s - 4, w);
  }

  // ----------------------------------------------------------- merging

  ghost function Joined(b: Block, c: Block): Block { Block(b.addr, b.size + c.size, true, b.poisoned) }

  ghost function MergeShape(h: Heap, i: int, nodes: seq<int>): Heap
    requires 0 <= i && i + 1 < |h.blocks|
  {
    h.(blocks := Replace(h.blocks, i, i + 2, [Joined(h.blocks[i], h.blocks[i + 1])]), nodes := nodes)
  }

  lemma MergeBlocks(h: Heap, i: int)
    requires Sound(h) && 0 <= i && i + 1 < |h.blocks|
    ensures var blocks := Replace(h.blocks, i, i + 2, [Joined(h.blocks[i], h.blocks[i + 1])]);
      Tiled(blocks, h.base, h.end, HeadSize(h.ptr)) && Roomy(blocks, HeadSize(h.ptr))
  {
    Unfold(h);
    var hs := HeadSize(h.ptr);
    var mid := [Joined(h.blocks[i], h.blocks[i + 1])];
    Multiples(h.blocks[i].size, h.blocks[i + 1].size);
    ReplaceTiled(h.blocks, h.base, h.end, hs, i, i + 2, mid);
    ReplaceRoomy(h.blocks, hs, i, i + 2, mid);
  }

  /** The pair's own nodes give way to one node for the joined block. */
  lemma MergeListed(h: Heap, i: int, nodes: seq<int>)
    requires Sound(h) && 0 <= i && i + 1 < |h.blocks|
    requires Distinct(nodes)
    requires forall n {:trigger Listed(nodes, n)} ::
      Listed(nodes, n) <==> n == h.blocks[i].addr + 8 || (Listed(h.nodes, n) && n != h.blocks[i + 1].addr + 8)
    ensures ListsFree(MergeShape(h, i, nodes).blocks, nodes)
  {
    Unfold(h);
    var mid := [Joined(h.blocks[i], h.blocks[i + 1])];
    forall n
      ensures Listed(nodes, n) <==> IsFreeNode(MergeShape(h, i, nodes).blocks, n)
    {
      ReplaceFreeNode(h.blocks, h.base, h.end, HeadSize(h.ptr), i, i + 2, mid, n);
      OnlyStartsInside(h, i, n);
      OnlyStartsInside(h, i + 1, n);
      assert IsFreeNode(mid, n) <==> n == h.blocks[i].addr + 8 by { assert mid[0].free; }
      assert h.blocks[i].addr + h.blocks[i].size == h.blocks[i + 1].addr;
    }
  }

  lemma MergeSound(h: Heap, i: int, nodes: seq<int>, m': Mem)
    requires Sound(h) && 0 <= i && i + 1 < |h.blocks| && h.blocks[i + 1].free
    requires ListsFree(MergeShape(h, i, nodes).blocks, nodes) && Linked(m', h.ptr, h.head, nodes)
    requires Frame(h, h.blocks[i].addr, h.blocks[i + 1].addr + h.blocks[i + 1].size, m')
    requires HeaderAt(m', Joined(h.blocks[i], h.blocks[i + 1]), PrevFree(h.blocks, i))
    requires FooterAt(m', Joined(h.blocks[i], h.blocks[i + 1]))
    ensures Sound(Heap(h.ptr, h.head, h.base, h.end, m',
      Replace(h.blocks, i, i + 2, [Joined(h.blocks[i], h.blocks[i + 1])]), nodes))
  {
    Unfold(h);
    var s := h.blocks[i + 1].addr + h.blocks[i + 1].size;
    MergeBlocks(h, i);
    NextHeader(h, i + 1, h.blocks[i].addr, s, m');
    Rebuild(h, i, i + 2, [Joined(h.blocks[i], h.blocks[i + 1])], s, m');
    Fold(Heap(h.ptr, h.head, h.base, h.end, m', Replace(h.blocks, i, i + 2, [Joined(h.blocks[i], h.blocks[i + 1])]),
      nodes));
  }

  /** The size word that merging writes: the two sizes added, the flags of the
      lower block kept (mm/simple_mm.c:154-157, 201-203). */
  lemma JoinedWord(b: Block, c: Block, pf: bool)
    requires b.free && b.size % 8 == 0 && c.size % 8 == 0
    ensures var w := Pack(b.size, b.free, pf, b.poisoned);
      b.size + c.size + ExtractFlag(w) == Pack(Joined(b, c).size, true, pf, Joined(b, c).poisoned)
  {
    PackReads(b.size, true, pf, b.poisoned);
  }

  /** The store to the lower header and the unlinking of the upper node, on any
      heap shape whose list is intact. */
  lemma MergeLinks(h: Heap, i: int, k: int, w: int)
    requires Layout(h) && Tiled(h.blocks, h.base, h.end, HeadSize(h.ptr)) && ListsFree(h.blocks, h.nodes)
    requires Linked(h.mem, h.ptr, h.head, h.nodes) && 0 <= i && i + 1 < |h.blocks|
    requires h.blocks[i + 1].free && h.blocks[i + 1].size >= HeadSize(h.ptr) + MIN_BLOCK_SIZE
    requires 0 <= k < |h.nodes| && h.nodes[k] == h.blocks[i + 1].addr + 8
    ensures var x := h.blocks[i].addr + 4; var n := h.nodes[k];
      && 0 <= x < |h.mem|
      && (var m1 := h.mem[x := w];
        NodeFits(m1, h.ptr, n) && NodeFits(m1, h.ptr, m1[n]) && NodeFits(m1, h.ptr, m1[n + h.ptr]))
    ensures var m2 := ListDel(h.mem[h.blocks[i].addr + 4 := w], h.ptr, h.nodes[k]);
      && Linked(m2, h.ptr, h.head, Without(h.nodes, k))
      && m2[h.blocks[i].addr + 4] == w
      && Frame(h, h.blocks[i].addr + 4, h.blocks[i].addr + 5, m2)
  {
    InRegion(h.blocks, h.base, h.end, HeadSize(h.ptr), i);
    NotLinkCell(h, i, h.blocks[i].addr + 4);
    HeapDel(h, k, h.blocks[i].addr + 4, w);
  }

  /** Writing the footer of the joined block. */
  lemma MergeFooter(h: Heap, i: int, k: int, m2: Mem, v: int)
    requires Layout(h) && Tiled(h.blocks, h.base, h.end, HeadSize(h.ptr)) && ListsFree(h.blocks, h.nodes)
    requires 0 <= i && i + 1 < |h.blocks| && h.blocks[i + 1].size >= HeadSize(h.ptr) + MIN_BLOCK_SIZE
    requires 0 <= k < |h.nodes| && |m2| == |h.mem| && Linked(m2, h.ptr, h.head, Without(h.nodes, k))
    ensures var x := h.blocks[i + 1].addr + h.blocks[i + 1].size - 4;
      0 <= x < |m2| && Linked(m2[x := v], h.ptr, h.head, Without(h.nodes, k))
  {
    var c := h.blocks[i + 1];
    var x := c.addr + c.size - 4;
    InRegion(h.blocks, h.base, h.end, HeadSize(h.ptr), i + 1);
    NotLinkCell(h, i + 1, x);
    NotLinkCellWithout(h, k, x);
    StoreKeepsLinks(m2, h.ptr, h.head, Without(h.nodes, k), x, v);
  }

  lemma MergePrevMemory(h: Heap, i: int, m2: Mem, m3: Mem)
    requires Sound(h) && 0 <= i && i + 1 < |h.blocks| && h.blocks[i].free && h.blocks[i + 1].free
    requires Frame(h, h.blocks[i].addr + 4, h.blocks[i].addr + 5, m2)
    requires var b := h.blocks[i]; var c := h.blocks[i + 1];
      && 0 <= b.addr && b.addr + 4 < |h.mem| && 0 <= c.addr + c.size - 4 < |m2|
      && m2[b.addr + 4] == b.size + c.size + ExtractFlag(h.mem[b.addr + 4])
      && m3 == m2[c.addr + c.size - 4 := b.size + c.size]
    ensures Frame(h, h.blocks[i].addr, h.blocks[i + 1].addr + h.blocks[i + 1].size, m3)
    ensures HeaderAt(m3, Joined(h.blocks[i], h.blocks[i + 1]), PrevFree(h.blocks, i))
    ensures FooterAt(m3, Joined(h.blocks[i], h.blocks[i + 1]))
  {
    Unfold(h);
    var b, c := h.blocks[i], h.blocks[i + 1];
    HeaderReads(h, i);
    HeaderReads(h, i + 1);
    FrameCell(h, b.addr + 4, b.addr + 5, m2, i, b.addr);
    JoinedWord(b, c, PrevFree(h.blocks, i));
  }

  /** Backward coalescing (mm/simple_mm.c:152-163): block i + 1 joins block i. */
  lemma MergePrevSound(h: Heap, i: int, k: int, m2: Mem, m3: Mem)
    requires Sound(h) && 0 <= i && i + 1 < |h.blocks| && h.blocks[i].free && h.blocks[i + 1].free
    requires 0 <= k < |h.nodes| && h.nodes[k] == h.blocks[i + 1].addr + 8
    requires Linked(m2, h.ptr, h.head, Without(h.nodes, k))
    requires Frame(h, h.blocks[i].addr + 4, h.blocks[i].addr + 5, m2)
    requires var b := h.blocks[i]; var c := h.blocks[i + 1];
      && 0 <= b.addr && b.addr + 4 < |h.mem| && 0 <= c.addr + c.size - 4 < |m2|
      && m2[b.addr + 4] == b.size + c.size + ExtractFlag(h.mem[b.addr + 4])
      && m3 == m2[c.addr + c.size - 4 := b.size + c.size]
    ensures Sound(Heap(h.ptr, h.head, h.base, h.end, m3,
      Replace(h.blocks, i, i + 2, [Joined(h.blocks[i], h.blocks[i + 1])]), Without(h.nodes, k)))
    ensures Frame(h, h.blocks[i].addr, h.blocks[i + 1].addr + h.blocks[i + 1].size, m3)
  {
    Unfold(h);
    var b, c := h.blocks[i], h.blocks[i + 1];
    MergePrevMemory(h, i, m2, m3);
    MergeFooter(h, i, k, m2, b.size + c.size);
    MergePrevListed(h, i, k);
    MergeSound(h, i, Without(h.nodes, k), m3);
  }

  lemma MergePrevListed(h: Heap, i: int, k: int)
    requires Sound(h) && 0 <= i && i + 1 < |h.blocks| && h.blocks[i].free && h.blocks[i + 1].free
    requires 0 <= k < |h.nodes| && h.nodes[k] == h.blocks[i + 1].addr + 8
    ensures ListsFree(MergeShape(h, i, Without(h.nodes, k)).blocks, Without(h.nodes, k))
  {
    Unfold(h);
    WithoutMembers(h.nodes, k);
    assert IsFreeNode(h.blocks, h.blocks[i].addr + 8);
    MergeListed(h, i, Without(h.nodes, k));
  }

  /** The heap between listing the freed block and merging it. */
  ghost predicate Released(h: Heap, i: int, h1: Heap) {
    && 0 <= i < |h.blocks| && |h1.mem| == |h.mem|
    && h1 == Heap(h.ptr, h.head, h.base, h.end, h1.mem, Replace(h.blocks, i, i + 1, [Freed(h.blocks[i])]),
      [h.blocks[i].addr + 8] + h.nodes)
  }

  lemma ReleasedAt(h: Heap, i: int, h1: Heap, j: int)
    requires Released(h, i, h1) && 0 <= j < |h.blocks|
    ensures |h1.blocks| == |h.blocks|
    ensures h1.blocks[j] == if j == i then Freed(h.blocks[i]) else h.blocks[j]
  {
    ReplaceAt(h.blocks, i, i + 1, [Freed(h.blocks[i])], j);
  }

  lemma ReleasedShape(h: Heap, i: int, h1: Heap)
    requires Sound(h) && Released(h, i, h1) && !h.blocks[i].free
    ensures Layout(h1) && Tiled(h1.blocks, h1.base, h1.end, HeadSize(h1.ptr)) && ListsFree(h1.blocks, h1.nodes)
  {
    Unfold(h);
    ReleaseBlocks(h, i);
  }

  lemma MergeNextHeader(h: Heap, i: int, h1: Heap, m4: Mem, m5: Mem)
    requires Sound(h) && Released(h, i, h1) && i + 1 < |h.blocks| && !h.blocks[i].free && h.blocks[i + 1].free
    requires HeaderAt(h1.mem, Freed(h.blocks[i]), PrevFree(h.blocks, i))
    requires Frame(h1, h.blocks[i].addr + 4, h.blocks[i].addr + 5, m4)
    requires var b := h.blocks[i]; var c := h.blocks[i + 1];
      && 0 <= b.addr && b.addr + 4 < |h1.mem| && 0 <= c.addr + c.size - 4 < |m4|
      && m4[b.addr + 4] == b.size + c.size + ExtractFlag(h1.mem[b.addr + 4])
      && m5 == m4[c.addr + c.size - 4 := b.size + c.size]
    ensures HeaderAt(m5, Joined(h.blocks[i], h.blocks[i + 1]), PrevFree(h.blocks, i))
    ensures FooterAt(m5, Joined(h.blocks[i], h.blocks[i + 1]))
  {
    Unfold(h);
    var b, c := h.blocks[i], h.blocks[i + 1];
    HeaderReads(h, i);
    HeaderReads(h, i + 1);
    ReleaseCells(h, i, b.addr);
    JoinedWord(Freed(b), c, PrevFree(h.blocks, i));
    assert Within(h1, b.addr);
  }

  lemma MergeNextFrame(h: Heap, i: int, h1: Heap, m4: Mem, m5: Mem)
    requires Released(h, i, h1) && i + 1 < |h.blocks| && h.blocks[i].addr + h.blocks[i].size == h.blocks[i + 1].addr
    requires 8 + h.ptr < h.blocks[i].size && 8 < h.blocks[i + 1].size && 0 < h.ptr
    requires Frame(h, h.blocks[i].addr, h.blocks[i].addr + h.blocks[i].size, h1.mem)
    requires Frame(h1, h.blocks[i].addr + 4, h.blocks[i].addr + 5, m4)
    requires var c := h.blocks[i + 1]; var v := h.blocks[i].size + c.size;
      0 <= c.addr + c.size - 4 < |m4| && m5 == m4[c.addr + c.size - 4 := v]
    ensures Frame(h, h.blocks[i].addr, h.blocks[i + 1].addr + h.blocks[i + 1].size, m5)
  {
    var b, c := h.blocks[i], h.blocks[i + 1];
    forall x | Within(h, x) && !(b.addr <= x < c.addr + c.size) && !LinkCell(h.ptr, h.head, h.nodes, x)
      ensures m5[x] == h.mem[x]
    {
      assert Within(h1, x);
      LinkCellMore(h.ptr, h.head, h.nodes, b.addr + 8, x);
    }
  }

  /** Forward coalescing (mm/simple_mm.c:199-208): the freed block i takes in
      block i + 1. */
  lemma MergeNextSound(h: Heap, i: int, k: int, h1: Heap, m4: Mem, m5: Mem)
    requires Sound(h) && Released(h, i, h1) && i + 1 < |h.blocks| && !h.blocks[i].free && h.blocks[i + 1].free
    requires 0 <= k < |h.nodes| && h.nodes[k] == h.blocks[i + 1].addr + 8
    requires Frame(h, h.blocks[i].addr, h.blocks[i].addr + h.blocks[i].size, h1.mem)
    requires HeaderAt(h1.mem, Freed(h.blocks[i]), PrevFree(h.blocks, i))
    requires Linked(m4, h.ptr, h.head, Without(h1.nodes, k + 1))
    requires Frame(h1, h.blocks[i].addr + 4, h.blocks[i].addr + 5, m4)
    requires var b := h.blocks[i]; var c := h.blocks[i + 1];
      && 0 <= b.addr && b.addr + 4 < |h1.mem| && 0 <= c.addr + c.size - 4 < |m4|
      && m4[b.addr + 4] == b.size + c.size + ExtractFlag(h1.mem[b.addr + 4])
      && m5 == m4[c.addr + c.size - 4 := b.size + c.size]
    ensures Sound(Heap(h.ptr, h.head, h.base, h.end, m5,
      Replace(h.blocks, i, i + 2, [Joined(h.blocks[i], h.blocks[i + 1])]),
                       Without(h1.nodes, k + 1)))
    ensures Frame(h, h.blocks[i].addr, h.blocks[i + 1].addr + h.blocks[i + 1].size, m5)
  {
    Unfold(h);
    MergeNextHeader(h, i, h1, m4, m5);
    MergeNextFrame(h, i, h1, m4, m5);
    MergeNextFooter(h, i, k, h1, m4);
    MergeNextListed(h, i, k);
    MergeSound(h, i, Without(h1.nodes, k + 1), m5);
  }

  lemma MergeNextFooter(h: Heap, i: int, k: int, h1: Heap, m4: Mem)
    requires Sound(h) && Released(h, i, h1) && i + 1 < |h.blocks| && !h.blocks[i].free && h.blocks[i + 1].free
    requires 0 <= k < |h.nodes| && |m4| == |h.mem|
    requires Linked(m4, h.ptr, h.head, Without(h1.nodes, k + 1))
    ensures var c := h.blocks[i + 1];
      && 0 <= c.addr + c.size - 4 < |m4|
      && Linked(m4[c.addr + c.size - 4 := h.blocks[i].size + c.size], h.ptr, h.head, Without(h1.nodes, k + 1))
  {
    Unfold(h);
    ReleasedShape(h, i, h1);
    ReleasedAt(h, i, h1, i);
    ReleasedAt(h, i, h1, i + 1);
    MergeFooter(h1, i, k + 1, m4, h.blocks[i].size + h.blocks[i + 1].size);
  }

  lemma MergeNextListed(h: Heap, i: int, k: int)
    requires Sound(h) && 0 <= i && i + 1 < |h.blocks| && !h.blocks[i].free && h.blocks[i + 1].free
    requires 0 <= k < |h.nodes| && h.nodes[k] == h.blocks[i + 1].addr + 8
    ensures var nodes := Without([h.blocks[i].addr + 8] + h.nodes, k + 1);
      ListsFree(MergeShape(h, i, nodes).blocks, nodes)
  {
    Unfold(h);
    var all := [h.blocks[i].addr + 8] + h.nodes;
    ReleaseListed(h, i);
    WithoutMembers(all, k + 1);
    assert all[k + 1] == h.blocks[i + 1].addr + 8;
    assert forall n :: Listed(all, n) <==> n == h.blocks[i].addr + 8 || Listed(h.nodes, n);
    MergeListed(h, i, Without(all, k + 1));
  }

  /** The list after forward coalescing, before the footer is written. */
  lemma MergeNextLinks(h: Heap, i: int, k: int, h1: Heap, w: int)
    requires Released(h, i, h1) && i + 1 < |h.blocks| && h.blocks[i + 1].free
    requires Layout(h1) && Tiled(h1.blocks, h1.base, h1.end, HeadSize(h1.ptr)) && ListsFree(h1.blocks, h1.nodes)
    requires h.blocks[i + 1].size >= HeadSize(h.ptr) + MIN_BLOCK_SIZE
    requires 0 <= k < |h.nodes| && h.nodes[k] == h.blocks[i + 1].addr + 8
    requires Linked(h1.mem, h.ptr, h.head, h1.nodes)
    ensures var x := h.blocks[i].addr + 4; var n := h1.nodes[k + 1];
      && n == h.blocks[i + 1].addr + 8
      && 0 <= x < |h1.mem|
      && (var m3 := h1.mem[x := w];
        NodeFits(m3, h.ptr, n) && NodeFits(m3, h.ptr, m3[n]) && NodeFits(m3, h.ptr, m3[n + h.ptr]))
    ensures var m4 := ListDel(h1.mem[h.blocks[i].addr + 4 := w], h.ptr, h1.nodes[k + 1]);
      && Linked(m4, h.ptr, h.head, Without(h1.nodes, k + 1))
      && m4[h.blocks[i].addr + 4] == w
      && Frame(h1, h.blocks[i].addr + 4, h.blocks[i].addr + 5, m4)
  {
    ReleasedAt(h, i, h1, i);
    ReleasedAt(h, i, h1, i + 1);
    MergeLinks(h1, i, k + 1, w);
  }

  // ------------------------------------------------------- callers' memory

  /** x lies in the payload of the used block q. */
  ghost predicate InPayload(h: Heap, q: int, x: int) {
    && 0 <= q < |h.blocks| && !h.blocks[q].free
    && h.blocks[q].addr + HeadSize(h.ptr) <= x < h.blocks[q].addr + h.blocks[q].size
    && 0 <= x < |h.mem|
  }

  /** No word in the payload of a used block other than `skip` differs. */
  ghost predicate PayloadsKept(h: Heap, m': Mem, skip: int) {
    && |m'| == |h.mem|
    && forall q, x {:trigger InPayload(h, q, x)} ::
         InPayload(h, q, x) && q != skip ==> m'[x] == h.mem[x]
  }

  /** A step confined to the run i, ..., j - 1 and the header after it leaves
      all payloads outside the run alone. */
  lemma FrameKeepsPayloads(h: Heap, i: int, j: int, hi: int, m': Mem, skip: int)
    requires Sound(h) && 0 <= i < j <= |h.blocks| && Frame(h, h.blocks[i].addr, hi, m')
    requires hi <= h.blocks[j - 1].addr + h.blocks[j - 1].size + 8
    requires forall q :: i <= q < j && q != skip ==> h.blocks[q].free
    ensures PayloadsKept(h, m', skip)
  {
    Unfold(h);
    var hs := HeadSize(h.ptr);
    forall q, x | InPayload(h, q, x) && q != skip
      ensures m'[x] == h.mem[x]
    {
      if q < i { Ordered(h.blocks, h.base, h.end, hs, q, i); } else { Ordered(h.blocks, h.base, h.end, hs, j - 1, q); }
      FrameCell(h, h.blocks[i].addr, hi, m', q, x);
    }
  }

  /** Arbitrary stores inside live payloads keep the invariant: no header, no
      footer of a free block and no link cell lies there. */
  lemma PayloadStoreSound(h: Heap, q: int, x: int, v: int)
    requires Sound(h) && InPayload(h, q, x)
    ensures 0 <= x < |h.mem| && Sound(h.(mem := h.mem[x := v]))
  {
    Unfold(h);
    var hs := HeadSize(h.ptr);
    InRegion(h.blocks, h.base, h.end, hs, q);
    NotLinkCell(h, q, x);
    var m' := h.mem[x := v];
    StoreKeepsLinks(h.mem, h.ptr, h.head, h.nodes, x, v);
    PayloadStoreHeaders(h, q, x, v);
    PayloadStoreFooters(h, q, x, v);
    Fold(h.(mem := m'));
  }

  lemma PayloadStoreHeaders(h: Heap, q: int, x: int, v: int)
    requires Sound(h) && InPayload(h, q, x) && 0 <= x < |h.mem|
    ensures Headers(h.mem[x := v], h.blocks, h.end)
  {
    Unfold(h);
    var m' := h.mem[x := v];
    forall k | 0 <= k < |h.blocks|
      ensures HeaderAt(m', h.blocks[k], PrevFree(h.blocks, k))
    {
      HeaderReads(h, k);
      if h.blocks[k].addr <= x < h.blocks[k].addr + 8 {
        OneOwner(h.blocks, h.base, h.end, HeadSize(h.ptr), q, k, x);
      }
    }
    InRegion(h.blocks, h.base, h.end, HeadSize(h.ptr), q);
    HeaderReads(h, |h.blocks| - 1);
  }

  lemma PayloadStoreFooters(h: Heap, q: int, x: int, v: int)
    requires Sound(h) && InPayload(h, q, x) && 0 <= x < |h.mem|
    ensures Footers(h.mem[x := v], h.blocks)
  {
    Unfold(h);
    var m' := h.mem[x := v];
    forall k | 0 <= k < |h.blocks| - 1 && h.blocks[k].free
      ensures FooterAt(m', h.blocks[k])
    {
      assert FooterAt(h.mem, h.blocks[k]);
      if x == h.blocks[k].addr + h.blocks[k].size - 4 {
        OneOwner(h.blocks, h.base, h.end, HeadSize(h.ptr), q, k, x);
      }
    }
  }
}
