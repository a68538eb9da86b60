/** The heap of mm/simple_mm.c as a value: memory, the blocks that tile the
    region, and the free list in list order. */
module HeapModel {
  import opened SizeFlag
  import opened FreeList

  /** One block of the region; `size` counts the header. */
  datatype Block = Block(addr: int, size: int, free: bool, poisoned: bool)

  /** `ptr` is the pointer width (4 on RV32, 8 on 64-bit targets), `head` the
      address of free_mem_list_head, `base` and `end` the addresses of the first
      header and of the size-0 end header. */
  datatype Heap = Heap(ptr: int, head: int, base: int, end: int,
                       mem: Mem, blocks: seq<Block>, nodes: seq<int>)

  /** sizeof(struct simple_mm_block): two 32-bit words and two pointers. */
  function HeadSize(ptr: int): int { 8 + 2 * ptr }

  /** One more than the largest size_t. */
  function SizeMod(ptr: int): int { if ptr == 4 then 0x1_0000_0000 else 0x1_0000_0000_0000_0000 }

  // ---------------------------------------------------------------- tiling

  /** Blocks follow one another without gap from `base` to `end`. */
  ghost predicate Tiled(blocks: seq<Block>, base: int, end: int, hs: int) {
    && 0 < |blocks|
    && blocks[0].addr == base
    && (forall i :: 0 <= i < |blocks| ==> blocks[i].addr % 8 == 0 && blocks[i].size % 8 == 0 && blocks[i].size >= hs)
    && (forall i, j :: 0 <= i && j == i + 1 && j < |blocks| ==> blocks[j].addr == blocks[i].addr + blocks[i].size)
    && blocks[|blocks| - 1].addr + blocks[|blocks| - 1].size == end
  }

  /** Every block has room for at least one payload unit, unless it is the
      only block of a region too small to hand anything out. */
  ghost predicate Roomy(blocks: seq<Block>, hs: int) {
    forall i :: 0 <= i < |blocks| ==> blocks[i].size >= hs + MIN_BLOCK_SIZE || (|blocks| == 1 && blocks[i].free)
  }

  /** No two neighbours are both free. */
  ghost predicate Coalesced(blocks: seq<Block>) {
    forall i, j :: 0 <= i && j == i + 1 && j < |blocks| ==> !(blocks[i].free && blocks[j].free)
  }

  ghost function PrevFree(blocks: seq<Block>, i: int): bool
    requires 0 <= i <= |blocks|
  {
    i > 0 && blocks[i - 1].free
  }

  // ---------------------------------------------------------------- memory

  ghost predicate HeaderAt(m: Mem, b: Block, prevFree: bool) {
    && 0 <= b.addr && b.addr + 4 < |m|
    && m[b.addr] == MAGIC
    && m[b.addr + 4] == Pack(b.size, b.free, prevFree, b.poisoned)
  }

  /** The end header: size 0, never free. */
  ghost function EndBlock(end: int): Block { Block(end, 0, false, false) }

  ghost predicate Headers(m: Mem, blocks: seq<Block>, end: int) {
    && (forall i {:trigger PrevFree(blocks, i)} :: 0 <= i < |blocks| ==> HeaderAt(m, blocks[i], PrevFree(blocks, i)))
    && HeaderAt(m, EndBlock(end), PrevFree(blocks, |blocks|))
  }

  ghost predicate FooterAt(m: Mem, b: Block) {
    0 <= b.addr + b.size - 4 < |m| && m[b.addr + b.size - 4] == b.size
  }

  /** Every free block that is not the last has its size in its last word. */
  ghost predicate Footers(m: Mem, blocks: seq<Block>) {
    forall i {:trigger FooterAt(m, blocks[i])} :: 0 <= i < |blocks| - 1 && blocks[i].free ==> FooterAt(m, blocks[i])
  }

  // ------------------------------------------------------------- free list

  ghost predicate IsFreeNode(blocks: seq<Block>, n: int) {
    exists i :: 0 <= i < |blocks| && blocks[i].free && n == blocks[i].addr + 8
  }

  ghost predicate Distinct(s: seq<int>) {
    forall i, j :: 0 <= i < j < |s| ==> s[i] != s[j]
  }

  ghost predicate Listed(nodes: seq<int>, n: int) { n in nodes }

  /** The list holds exactly the free blocks, once each. */
  ghost predicate ListsFree(blocks: seq<Block>, nodes: seq<int>) {
    && Distinct(nodes)
    && forall n {:trigger Listed(nodes, n)} {:trigger IsFreeNode(blocks, n)} ::
         Listed(nodes, n) <==> IsFreeNode(blocks, n)
  }

  // ------------------------------------------------------------- invariant

  ghost predicate Layout(h: Heap) {
    && (h.ptr == 4 || h.ptr == 8)
    && 0 < h.base && h.base % 8 == 0 && 0 < h.head
    && h.end + HeadSize(h.ptr) <= |h.mem|
    && h.head + 2 * h.ptr <= |h.mem|
    && (h.head + 2 * h.ptr <= h.base || h.end + HeadSize(h.ptr) <= h.head)
    && h.end - h.base < 0x1_0000_0000
  }

  /** Everything but full coalescing; simple_free passes through such states. */
  ghost predicate SoundBody(h: Heap) {
    && Layout(h)
    && Tiled(h.blocks, h.base, h.end, HeadSize(h.ptr))
    && Roomy(h.blocks, HeadSize(h.ptr))
    && Headers(h.mem, h.blocks, h.end)
    && Footers(h.mem, h.blocks)
    && ListsFree(h.blocks, h.nodes)
    && Linked(h.mem, h.ptr, h.head, h.nodes)
  }

  ghost predicate Folded(h: Heap, n: nat) {
    if n == 0 then SoundBody(h) else Folded(h, n - 1)
  }

  /** `SoundBody`, folded so that the verifier looks inside only where `Unfold`
      is called. */
  ghost predicate Sound(h: Heap) {
    Folded(h, |h.mem| + 4)
  }

  lemma {:induction false} FoldedIsBody(h: Heap, n: nat)
    ensures Folded(h, n) <==> SoundBody(h)
  {
    if n > 0 { FoldedIsBody(h, n - 1); }
  }

  lemma Unfold(h: Heap)
    requires Sound(h)
    ensures SoundBody(h)
  {
    FoldedIsBody(h, |h.mem| + 4);
  }

  lemma Fold(h: Heap)
    requires SoundBody(h)
    ensures Sound(h)
  {
    FoldedIsBody(h, |h.mem| + 4);
  }

  ghost predicate Inv(h: Heap) {
    Sound(h) && Coalesced(h.blocks)
  }

  // ---------------------------------------------------- geometry of tilings

  /** Blocks are in address order and lie inside the region. */
  lemma {:induction false} Ordered(blocks: seq<Block>, base: int, end: int, hs: int, i: int, j: int)
    requires Tiled(blocks, base, end, hs) && 0 < hs && 0 <= i < j <= |blocks|
    ensures blocks[i].addr + blocks[i].size <= if j == |blocks| then end else blocks[j].addr
    decreases j - i
  {
    if j > i + 1 {
      Ordered(blocks, base, end, hs, i + 1, j);
    }
  }

  lemma InRegion(blocks: seq<Block>, base: int, end: int, hs: int, i: int)
    requires Tiled(blocks, base, end, hs) && 0 < hs && 0 <= i < |blocks|
    ensures base <= blocks[i].addr && blocks[i].addr + blocks[i].size <= end
  {
    Ordered(blocks, base, end, hs, i, |blocks|);
    if i > 0 { Ordered(blocks, base, end, hs, 0, i); }
  }

  /** An address belongs to at most one block. */
  lemma OneOwner(blocks: seq<Block>, base: int, end: int, hs: int, i: int, j: int, x: int)
    requires Tiled(blocks, base, end, hs) && 0 < hs && 0 <= i < |blocks| && 0 <= j < |blocks|
    requires blocks[i].addr <= x < blocks[i].addr + blocks[i].size
    requires blocks[j].addr <= x < blocks[j].addr + blocks[j].size
    ensures i == j
  {
    if i < j { Ordered(blocks, base, end, hs, i, j); }
    if j < i { Ordered(blocks, base, end, hs, j, i); }
  }

  /** The block right of block i, the end header for the last one. */
  ghost function Successor(blocks: seq<Block>, end: int, i: int): Block
    requires 0 <= i < |blocks|
  {
    if i + 1 < |blocks| then blocks[i + 1] else EndBlock(end)
  }

  lemma SuccessorAddr(blocks: seq<Block>, base: int, end: int, hs: int, i: int)
    requires Tiled(blocks, base, end, hs) && 0 <= i < |blocks|
    ensures Successor(blocks, end, i).addr == blocks[i].addr + blocks[i].size
  {
  }

  // ------------------------------------------------- replacing a run of blocks

  ghost function FoldedReplace(blocks: seq<Block>, i: int, j: int, mid: seq<Block>, n: nat): (r: seq<Block>)
    requires 0 <= i <= j <= |blocks|
    ensures |r| == |blocks| - j + i + |mid|
  {
    if n == 0 then blocks[..i] + mid + blocks[j..] else FoldedReplace(blocks, i, j, mid, n - 1)
  }

  /** Blocks i, ..., j - 1 give way to `mid`. The definition is folded; see
      `ReplaceIs`. */
  ghost function Replace(blocks: seq<Block>, i: int, j: int, mid: seq<Block>): (r: seq<Block>)
    requires 0 <= i <= j <= |blocks|
    ensures |r| == |blocks| - j + i + |mid|
  {
    FoldedReplace(blocks, i, j, mid, |blocks| + 4)
  }

  lemma {:induction false} FoldedReplaceIs(blocks: seq<Block>, i: int, j: int, mid: seq<Block>, n: nat)
    requires 0 <= i <= j <= |blocks|
    ensures FoldedReplace(blocks, i, j, mid, n) == blocks[..i] + mid + blocks[j..]
  {
    if n > 0 { FoldedReplaceIs(blocks, i, j, mid, n - 1); }
  }

  lemma ReplaceIs(blocks: seq<Block>, i: int, j: int, mid: seq<Block>)
    requires 0 <= i <= j <= |blocks|
    ensures Replace(blocks, i, j, mid) == blocks[..i] + mid + blocks[j..]
  {
    FoldedReplaceIs(blocks, i, j, mid, |blocks| + 4);
  }

  lemma ReplaceAt(blocks: seq<Block>, i: int, j: int, mid: seq<Block>, k: int)
    requires 0 <= i <= j <= |blocks| && 0 <= k < |blocks| - j + i + |mid|
    ensures Replace(blocks, i, j, mid)[k]
      == if k < i then blocks[k] else if k < i + |mid| then mid[k - i] else blocks[k - i - |mid| + j]
  {
    ReplaceIs(blocks, i, j, mid);
  }

  lemma ReplaceStep(blocks: seq<Block>, base: int, end: int, hs: int, i: int, j: int, mid: seq<Block>, a: int)
    requires Tiled(blocks, base, end, hs) && 0 <= i < j <= |blocks|
    requires Tiled(mid, blocks[i].addr, blocks[j - 1].addr + blocks[j - 1].size, hs)
    requires 0 <= a && a + 1 < |blocks| - j + i + |mid|
    ensures var r := Replace(blocks, i, j, mid); r[a + 1].addr == r[a].addr + r[a].size
  {
    ReplaceAt(blocks, i, j, mid, a);
    ReplaceAt(blocks, i, j, mid, a + 1);
  }

  lemma ReplaceTiled(blocks: seq<Block>, base: int, end: int, hs: int, i: int, j: int, mid: seq<Block>)
    requires Tiled(blocks, base, end, hs) && 0 <= i < j <= |blocks|
    requires Tiled(mid, blocks[i].addr, blocks[j - 1].addr + blocks[j - 1].size, hs)
    ensures Tiled(Replace(blocks, i, j, mid), base, end, hs)
  {
    var r := Replace(blocks, i, j, mid);
    forall a, b | 0 <= a && b == a + 1 && b < |r|
      ensures r[b].addr == r[a].addr + r[a].size
    {
      ReplaceStep(blocks, base, end, hs, i, j, mid, a);
    }
    forall k | 0 <= k < |r|
      ensures r[k].addr % 8 == 0 && r[k].size % 8 == 0 && r[k].size >= hs
    {
      ReplaceAt(blocks, i, j, mid, k);
    }
    ReplaceAt(blocks, i, j, mid, 0);
    ReplaceAt(blocks, i, j, mid, |r| - 1);
  }

  lemma ReplaceRoomy(blocks: seq<Block>, hs: int, i: int, j: int, mid: seq<Block>)
    requires Roomy(blocks, hs) && 0 <= i < j <= |blocks| && 0 < |mid|
    requires forall k :: 0 <= k < |mid| ==> mid[k].size >= hs + MIN_BLOCK_SIZE
    ensures Roomy(Replace(blocks, i, j, mid), hs)
  {
    var r := Replace(blocks, i, j, mid);
    forall k | 0 <= k < |r|
      ensures r[k].size >= hs + MIN_BLOCK_SIZE
    {
      ReplaceAt(blocks, i, j, mid, k);
    }
  }

  /** Whether the left neighbour of mid[k] is free, given the one of mid[0]. */
  ghost function PrevIn(first: bool, mid: seq<Block>, k: int): bool
    requires 0 <= k < |mid|
  {
    if k == 0 then first else mid[k - 1].free
  }

  ghost predicate SameHeader(m: Mem, m': Mem, b: Block) {
    0 <= b.addr && b.addr + 4 < |m| == |m'| && m'[b.addr] == m[b.addr] && m'[b.addr + 4] == m[b.addr + 4]
  }

  /** New headers for `mid`, the old ones elsewhere; the header right of the
      run must tell whether the last block of `mid` is free. */
  ghost predicate NewHeaders(m: Mem, m': Mem, blocks: seq<Block>, end: int, i: int, j: int, mid: seq<Block>) {
    && Headers(m, blocks, end) && 0 <= i < j <= |blocks| && 0 < |mid|
    && (forall k {:trigger PrevIn(PrevFree(blocks, i), mid, k)} :: 0 <= k < |mid| ==>
      HeaderAt(m', mid[k], PrevIn(PrevFree(blocks, i), mid, k)))
    && HeaderAt(m', Successor(blocks, end, j - 1), mid[|mid| - 1].free)
    && (forall k :: 0 <= k < |blocks| && (k < i || j < k) ==> SameHeader(m, m', blocks[k]))
    && (j < |blocks| ==> SameHeader(m, m', EndBlock(end)))
  }

  lemma ReplaceHeaderAt(m: Mem, m': Mem, blocks: seq<Block>, end: int, i: int, j: int, mid: seq<Block>, k: int)
    requires NewHeaders(m, m', blocks, end, i, j, mid) && 0 <= k < |Replace(blocks, i, j, mid)|
    ensures var r := Replace(blocks, i, j, mid); HeaderAt(m', r[k], PrevFree(r, k))
  {
    ReplaceAt(blocks, i, j, mid, k);
    if k > 0 { ReplaceAt(blocks, i, j, mid, k - 1); }
    if k < i {
      assert HeaderAt(m, blocks[k], PrevFree(blocks, k));
    } else if k < i + |mid| {
      assert HeaderAt(m', mid[k - i], PrevIn(PrevFree(blocks, i), mid, k - i));
    } else if k > i + |mid| {
      var q := k - i - |mid| + j;
      assert HeaderAt(m, blocks[q], PrevFree(blocks, q));
    }
  }

  lemma ReplaceHeaders(m: Mem, m': Mem, blocks: seq<Block>, end: int, i: int, j: int, mid: seq<Block>)
    requires NewHeaders(m, m', blocks, end, i, j, mid)
    ensures Headers(m', Replace(blocks, i, j, mid), end)
  {
    var r := Replace(blocks, i, j, mid);
    forall k | 0 <= k < |r|
      ensures HeaderAt(m', r[k], PrevFree(r, k))
    {
      ReplaceHeaderAt(m, m', blocks, end, i, j, mid, k);
    }
    ReplaceAt(blocks, i, j, mid, |r| - 1);
  }

  lemma ReplaceFooters(m: Mem, m': Mem, blocks: seq<Block>, i: int, j: int, mid: seq<Block>)
    requires Footers(m, blocks) && 0 <= i < j <= |blocks| && 0 < |mid| && |m'| == |m|
    requires forall k :: 0 <= k < |mid| && mid[k].free && (k + 1 < |mid| || j < |blocks|) ==> FooterAt(m', mid[k])
    requires forall k :: 0 <= k < |blocks| - 1 && (k < i || j <= k) && blocks[k].free ==>
      FooterAt(m, blocks[k]) && m'[blocks[k].addr + blocks[k].size - 4] == m[blocks[k].addr + blocks[k].size - 4]
    ensures Footers(m', Replace(blocks, i, j, mid))
  {
    var r := Replace(blocks, i, j, mid);
    forall k | 0 <= k < |r| - 1 && r[k].free
      ensures FooterAt(m', r[k])
    {
      ReplaceAt(blocks, i, j, mid, k);
    }
  }

  /** Which nodes are free after the replacement. */
  lemma ReplaceFreeNode(blocks: seq<Block>, base: int, end: int, hs: int, i: int, j: int, mid: seq<Block>, n: int)
    requires Tiled(blocks, base, end, hs) && 0 < hs && 0 <= i < j <= |blocks|
    ensures IsFreeNode(Replace(blocks, i, j, mid), n)
      <==> IsFreeNode(mid, n)
           || (IsFreeNode(blocks, n) && !(blocks[i].addr <= n - 8 < blocks[j - 1].addr + blocks[j - 1].size))
  {
    var r := Replace(blocks, i, j, mid);
    if IsFreeNode(r, n) {
      var k :| 0 <= k < |r| && r[k].free && n == r[k].addr + 8;
      FreeNodeFrom(blocks, base, end, hs, i, j, mid, k);
    }
    if IsFreeNode(mid, n) {
      var k :| 0 <= k < |mid| && mid[k].free && n == mid[k].addr + 8;
      ReplaceAt(blocks, i, j, mid, i + k);
    }
    if IsFreeNode(blocks, n) && !(blocks[i].addr <= n - 8 < blocks[j - 1].addr + blocks[j - 1].size) {
      var k :| 0 <= k < |blocks| && blocks[k].free && n == blocks[k].addr + 8;
      FreeNodeTo(blocks, base, end, hs, i, j, mid, k);
    }
  }

  lemma FreeNodeFrom(blocks: seq<Block>, base: int, end: int, hs: int, i: int, j: int, mid: seq<Block>, k: int)
    requires Tiled(blocks, base, end, hs) && 0 < hs && 0 <= i < j <= |blocks|
    requires 0 <= k < |Replace(blocks, i, j, mid)| && Replace(blocks, i, j, mid)[k].free
    ensures var n := Replace(blocks, i, j, mid)[k].addr + 8;
      IsFreeNode(mid, n)
        || (IsFreeNode(blocks, n) && !(blocks[i].addr <= n - 8 < blocks[j - 1].addr + blocks[j - 1].size))
  {
    ReplaceAt(blocks, i, j, mid, k);
    if k < i {
      Ordered(blocks, base, end, hs, k, i);
    } else if k < i + |mid| {
      assert mid[k - i].free;
    } else {
      Ordered(blocks, base, end, hs, j - 1, k - i - |mid| + j);
    }
  }

  lemma FreeNodeTo(blocks: seq<Block>, base: int, end: int, hs: int, i: int, j: int, mid: seq<Block>, k: int)
    requires Tiled(blocks, base, end, hs) && 0 < hs && 0 <= i < j <= |blocks| && 0 <= k < |blocks|
    requires blocks[k].free && !(blocks[i].addr <= blocks[k].addr < blocks[j - 1].addr + blocks[j - 1].size)
    ensures IsFreeNode(Replace(blocks, i, j, mid), blocks[k].addr + 8)
  {
    if k < i {
      ReplaceAt(blocks, i, j, mid, k);
    } else if k < j {
      if i < k { Ordered(blocks, base, end, hs, i, k); }
      if k < j - 1 { Ordered(blocks, base, end, hs, k, j - 1); }
      assert false;
    } else {
      ReplaceAt(blocks, i, j, mid, k - j + i + |mid|);
    }
  }

  // --------------------------------------------------- link cells in the region

  /** A link cell inside the region belongs to a free block, past its two
      header words and before its payload. */
  lemma LinkCellOwner(h: Heap, x: int) returns (i: int)
    requires Layout(h) && ListsFree(h.blocks, h.nodes) && h.base <= x < h.end + HeadSize(h.ptr)
    requires LinkCell(h.ptr, h.head, h.nodes, x)
    ensures 0 <= i < |h.blocks| && h.blocks[i].free
    ensures x == h.blocks[i].addr + 8 || x == h.blocks[i].addr + 8 + h.ptr
  {
    var k :| 0 <= k < |h.nodes| && (x == h.nodes[k] || x == h.nodes[k] + h.ptr);
    assert Listed(h.nodes, h.nodes[k]);
    i :| 0 <= i < |h.blocks| && h.blocks[i].free && h.nodes[k] == h.blocks[i].addr + 8;
  }

  /** What lies in block i at some other place than its links is no link cell,
      and neither is anything in a used block. */
  lemma NotLinkCell(h: Heap, i: int, x: int)
    requires Layout(h) && Tiled(h.blocks, h.base, h.end, HeadSize(h.ptr)) && ListsFree(h.blocks, h.nodes)
    requires 0 <= i < |h.blocks| && h.blocks[i].addr <= x < h.blocks[i].addr + h.blocks[i].size
    requires !h.blocks[i].free || (x != h.blocks[i].addr + 8 && x != h.blocks[i].addr + 8 + h.ptr)
    ensures !LinkCell(h.ptr, h.head, h.nodes, x)
  {
    InRegion(h.blocks, h.base, h.end, HeadSize(h.ptr), i);
    if LinkCell(h.ptr, h.head, h.nodes, x) {
      var j := LinkCellOwner(h, x);
      OneOwner(h.blocks, h.base, h.end, HeadSize(h.ptr), i, j, x);
    }
  }

  /** The end header holds no link cell. */
  lemma EndNotLinkCell(h: Heap, x: int)
    requires Layout(h) && Tiled(h.blocks, h.base, h.end, HeadSize(h.ptr)) && ListsFree(h.blocks, h.nodes)
    requires h.end <= x < h.end + HeadSize(h.ptr)
    ensures !LinkCell(h.ptr, h.head, h.nodes, x)
  {
    InRegion(h.blocks, h.base, h.end, HeadSize(h.ptr), 0);
    if LinkCell(h.ptr, h.head, h.nodes, x) {
      var j := LinkCellOwner(h, x);
      InRegion(h.blocks, h.base, h.end, HeadSize(h.ptr), j);
    }
  }

  /** A free block and its node. */
  lemma NodeOf(blocks: seq<Block>, nodes: seq<int>, i: int) returns (k: int)
    requires ListsFree(blocks, nodes) && 0 <= i < |blocks| && blocks[i].free
    ensures 0 <= k < |nodes| && nodes[k] == blocks[i].addr + 8
  {
    assert IsFreeNode(blocks, blocks[i].addr + 8);
    k :| 0 <= k < |nodes| && nodes[k] == blocks[i].addr + 8;
  }

  lemma BlockOf(blocks: seq<Block>, nodes: seq<int>, k: int) returns (i: int)
    requires ListsFree(blocks, nodes) && 0 <= k < |nodes|
    ensures 0 <= i < |blocks| && blocks[i].free && nodes[k] == blocks[i].addr + 8
  {
    assert Listed(nodes, nodes[k]);
    i :| 0 <= i < |blocks| && blocks[i].free && nodes[k] == blocks[i].addr + 8;
  }

  /** Nodes of free blocks, the list head included, never overlap. */
  lemma NodesSpaced(h: Heap)
    requires Layout(h) && Tiled(h.blocks, h.base, h.end, HeadSize(h.ptr)) && ListsFree(h.blocks, h.nodes)
    ensures Spaced(h.ptr, h.head, h.nodes)
  {
    var hs := HeadSize(h.ptr);
    forall a | 0 <= a < |h.nodes|
      ensures Apart(h.ptr, h.head, h.nodes[a])
    {
      var i := BlockOf(h.blocks, h.nodes, a);
      InRegion(h.blocks, h.base, h.end, hs, i);
    }
    forall a, b | 0 <= a < b < |h.nodes|
      ensures Apart(h.ptr, h.nodes[a], h.nodes[b])
    {
      var i := BlockOf(h.blocks, h.nodes, a);
      var j := BlockOf(h.blocks, h.nodes, b);
      if i < j { Ordered(h.blocks, h.base, h.end, hs, i, j); }
      if j < i { Ordered(h.blocks, h.base, h.end, hs, j, i); }
    }
  }

  lemma WithoutMembers(nodes: seq<int>, k: int)
    requires Distinct(nodes) && 0 <= k < |nodes|
    ensures Distinct(Without(nodes, k))
    ensures forall n :: Listed(Without(nodes, k), n) <==> Listed(nodes, n) && n != nodes[k]
  {
    var w := Without(nodes, k);
    assert forall i :: 0 <= i < |w| ==> w[i] == nodes[if i < k then i else i + 1];
    forall n | n in nodes && n != nodes[k]
      ensures n in w
    {
      var i :| 0 <= i < |nodes| && nodes[i] == n;
      assert w[if i < k then i else i - 1] == n;
    }
  }
}
