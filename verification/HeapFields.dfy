/** The fields of a heap in bytes. The memory model keeps a word at the entry of
    its first byte; that is sound because no two fields share a byte. */
module HeapFields {
  import opened HeapModel

  /** A stored field or a payload. Block |blocks| is the end header. */
  datatype Field =
    | Magic(i: int)
    | SizeWord(i: int)
    | PrevLink(i: int)
    | NextLink(i: int)
    | Footer(i: int)
    | Payload(i: int)
    | HeadPrev
    | HeadNext

  /** The address of the header of block i. */
  ghost function HeaderOf(h: Heap, i: int): int
    requires 0 <= i <= |h.blocks|
  {
    if i == |h.blocks| then h.end else h.blocks[i].addr
  }

  /** Links are used in free blocks, footers in free blocks that have a block
      behind them, payloads in used blocks. */
  ghost predicate Present(h: Heap, f: Field) {
    match f
    case Magic(i) => 0 <= i <= |h.blocks|
    case SizeWord(i) => 0 <= i <= |h.blocks|
    case PrevLink(i) => 0 <= i < |h.blocks| && h.blocks[i].free
    case NextLink(i) => 0 <= i < |h.blocks| && h.blocks[i].free
    case Footer(i) => 0 <= i < |h.blocks| - 1 && h.blocks[i].free
    case Payload(i) => 0 <= i < |h.blocks| && !h.blocks[i].free
    case HeadPrev => true
    case HeadNext => true
  }

  /** First byte and number of bytes (include/kernel/mm/simple_mm.h, list.h). */
  ghost function Extent(h: Heap, f: Field): (r: (int, int))
    requires Present(h, f)
  {
    match f
    case Magic(i) => (HeaderOf(h, i), 4)
    case SizeWord(i) => (HeaderOf(h, i) + 4, 4)
    case PrevLink(i) => (h.blocks[i].addr + 8, h.ptr)
    case NextLink(i) => (h.blocks[i].addr + 8 + h.ptr, h.ptr)
    case Footer(i) => (h.blocks[i].addr + h.blocks[i].size - 4, 4)
    case Payload(i) => (h.blocks[i].addr + HeadSize(h.ptr), h.blocks[i].size - HeadSize(h.ptr))
    case HeadPrev => (h.head, h.ptr)
    case HeadNext => (h.head + h.ptr, h.ptr)
  }

  /** The block that a field belongs to, -1 for the list head. */
  ghost function Owner(f: Field): int {
    if f.HeadPrev? || f.HeadNext? then -1 else f.i
  }

  ghost predicate Apart(x: (int, int), y: (int, int)) {
    x.0 + x.1 <= y.0 || y.0 + y.1 <= x.0
  }

  /** A field lies in its block, or in the end header. */
  lemma FieldInside(h: Heap, f: Field)
    requires SoundBody(h) && Present(h, f) && Owner(f) >= 0
    ensures var x := Extent(h, f); HeaderOf(h, f.i) <= x.0 && 0 <= x.1
    ensures var x := Extent(h, f);
      x.0 + x.1 <= if f.i == |h.blocks| then h.end + HeadSize(h.ptr) else h.blocks[f.i].addr + h.blocks[f.i].size
  {
  }

  lemma SameBlockApart(h: Heap, f: Field, g: Field)
    requires SoundBody(h) && Present(h, f) && Present(h, g) && f != g && Owner(f) == Owner(g)
    ensures Apart(Extent(h, f), Extent(h, g))
  {
    if f.Footer? || g.Footer? {
      assert h.blocks[f.i].size >= HeadSize(h.ptr) + 8;
    }
  }

  lemma OtherBlockApart(h: Heap, f: Field, g: Field)
    requires SoundBody(h) && Present(h, f) && Present(h, g) && 0 <= Owner(f) < Owner(g)
    ensures Apart(Extent(h, f), Extent(h, g))
  {
    FieldInside(h, f);
    FieldInside(h, g);
    Ordered(h.blocks, h.base, h.end, HeadSize(h.ptr), f.i, g.i);
  }

  lemma HeadApart(h: Heap, f: Field, g: Field)
    requires SoundBody(h) && Present(h, f) && Present(h, g) && Owner(f) < 0 <= Owner(g)
    ensures Apart(Extent(h, f), Extent(h, g))
  {
    FieldInside(h, g);
    if g.i < |h.blocks| {
      InRegion(h.blocks, h.base, h.end, HeadSize(h.ptr), g.i);
    } else {
      InRegion(h.blocks, h.base, h.end, HeadSize(h.ptr), 0);
    }
  }

  /** In a well-formed heap the byte ranges of all header words, links, footers
      and live payloads are pairwise disjoint. */
  lemma FieldsApart(h: Heap, f: Field, g: Field)
    requires Inv(h) && Present(h, f) && Present(h, g) && f != g
    ensures Apart(Extent(h, f), Extent(h, g))
  {
    Unfold(h);
    if Owner(f) == Owner(g) {
      SameBlockApart(h, f, g);
    } else if Owner(f) < 0 {
      HeadApart(h, f, g);
    } else if Owner(g) < 0 {
      HeadApart(h, g, f);
    } else if Owner(f) < Owner(g) {
      OtherBlockApart(h, f, g);
    } else {
      OtherBlockApart(h, g, f);
    }
  }
}
