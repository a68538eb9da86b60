/** What holds after any sequence of malloc and free, on the blocks alone. */
module HeapRuns {
  import opened SizeFlag
  import opened FreeList
  import opened HeapModel
  import opened HeapSteps
  import opened HeapOps

  // ------------------------------------------------------- live pointers

  /** p is the payload of a used block. */
  ghost predicate LiveAt(blocks: seq<Block>, hs: int, p: int) {
    exists i :: 0 <= i < |blocks| && !blocks[i].free && p == blocks[i].addr + hs
  }

  ghost predicate NothingLive(blocks: seq<Block>) {
    forall i :: 0 <= i < |blocks| ==> blocks[i].free
  }

  /** Which pointers are live after blocks i, ..., j - 1 became `mid`. */
  lemma ReplaceLive(blocks: seq<Block>, base: int, end: int, hs: int, i: int, j: int, mid: seq<Block>, p: int)
    requires Tiled(blocks, base, end, hs) && 0 < hs && 0 <= i < j <= |blocks|
    ensures LiveAt(Replace(blocks, i, j, mid), hs, p)
      <==> LiveAt(mid, hs, p)
           || (LiveAt(blocks, hs, p) && !(blocks[i].addr <= p - hs < blocks[j - 1].addr + blocks[j - 1].size))
  {
    var r := Replace(blocks, i, j, mid);
    if LiveAt(r, hs, p) {
      var k :| 0 <= k < |r| && !r[k].free && p == r[k].addr + hs;
      LiveFrom(blocks, base, end, hs, i, j, mid, k);
    }
    if LiveAt(mid, hs, p) {
      var k :| 0 <= k < |mid| && !mid[k].free && p == mid[k].addr + hs;
      ReplaceAt(blocks, i, j, mid, i + k);
    }
    if LiveAt(blocks, hs, p) && !(blocks[i].addr <= p - hs < blocks[j - 1].addr + blocks[j - 1].size) {
      var k :| 0 <= k < |blocks| && !blocks[k].free && p == blocks[k].addr + hs;
      LiveTo(blocks, base, end, hs, i, j, mid, k);
    }
  }

  lemma LiveFrom(blocks: seq<Block>, base: int, end: int, hs: int, i: int, j: int, mid: seq<Block>, k: int)
    requires Tiled(blocks, base, end, hs) && 0 < hs && 0 <= i < j <= |blocks|
    requires 0 <= k < |Replace(blocks, i, j, mid)| && !Replace(blocks, i, j, mid)[k].free
    ensures var p := Replace(blocks, i, j, mid)[k].addr + hs;
      LiveAt(mid, hs, p)
        || (LiveAt(blocks, hs, p) && !(blocks[i].addr <= p - hs < blocks[j - 1].addr + blocks[j - 1].size))
  {
    ReplaceAt(blocks, i, j, mid, k);
    if k < i {
      Ordered(blocks, base, end, hs, k, i);
    } else if k < i + |mid| {
      assert !mid[k - i].free;
    } else {
      Ordered(blocks, base, end, hs, j - 1, k - i - |mid| + j);
    }
  }

  lemma LiveTo(blocks: seq<Block>, base: int, end: int, hs: int, i: int, j: int, mid: seq<Block>, k: int)
    requires Tiled(blocks, base, end, hs) && 0 < hs && 0 <= i < j <= |blocks| && 0 <= k < |blocks|
    requires !blocks[k].free && !(blocks[i].addr <= blocks[k].addr < blocks[j - 1].addr + blocks[j - 1].size)
    ensures LiveAt(Replace(blocks, i, j, mid), hs, blocks[k].addr + hs)
  {
    if k < i {
      ReplaceAt(blocks, i, j, mid, k);
    } else if k < j {
      if i < k { Ordered(blocks, base, end, hs, i, k); }
      if k < j - 1 { Ordered(blocks, base, end, hs, k, j - 1); }
      assert false;
    } else {
      ReplaceAt(blocks, i, j, mid, k - j + i + |mid|);
    }
  }

  /** A live pointer inside a run of blocks belongs to a used block of the run. */
  lemma LiveInRun(blocks: seq<Block>, base: int, end: int, hs: int, i: int, j: int, p: int) returns (q: int)
    requires Tiled(blocks, base, end, hs) && 0 < hs && 0 <= i < j <= |blocks| && LiveAt(blocks, hs, p)
    requires blocks[i].addr <= p - hs < blocks[j - 1].addr + blocks[j - 1].size
    ensures i <= q < j && !blocks[q].free && p == blocks[q].addr + hs
  {
    q :| 0 <= q < |blocks| && !blocks[q].free && p == blocks[q].addr + hs;
    if q < i { Ordered(blocks, base, end, hs, q, i); }
    if j <= q { Ordered(blocks, base, end, hs, j - 1, q); }
  }

  /** malloc makes exactly one more pointer live. */
  lemma TakenLive(blocks: seq<Block>, base: int, end: int, hs: int, i: int, need: int, p: int)
    requires Tiled(blocks, base, end, hs) && 0 < hs && 0 <= i < |blocks| && blocks[i].free
    ensures LiveAt(TakenBlocks(blocks, i, need, hs), hs, p) <==> LiveAt(blocks, hs, p) || p == blocks[i].addr + hs
    ensures !LiveAt(blocks, hs, blocks[i].addr + hs)
  {
    var b := blocks[i];
    var mid := if Splits(b, need, hs) then Halves(b, need) else [b.(free := false)];
    ReplaceLive(blocks, base, end, hs, i, i + 1, mid, p);
    assert LiveAt(mid, hs, p) <==> p == b.addr + hs by {
      assert !mid[0].free && mid[0].addr == b.addr;
    }
    if LiveAt(blocks, hs, p) && b.addr <= p - hs < b.addr + b.size {
      var q := LiveInRun(blocks, base, end, hs, i, i + 1, p);
    }
    if LiveAt(blocks, hs, b.addr + hs) {
      var q := LiveInRun(blocks, base, end, hs, i, i + 1, b.addr + hs);
    }
  }

  lemma RunLive(blocks: seq<Block>, base: int, end: int, hs: int, i: int, lo: int, hi: int, mid: seq<Block>, p: int)
    requires Tiled(blocks, base, end, hs) && 0 < hs && 0 <= lo <= i < hi <= |blocks| && !blocks[i].free
    requires forall q :: lo <= q < hi && q != i ==> blocks[q].free
    requires |mid| == 1 && mid[0].free
    ensures LiveAt(Replace(blocks, lo, hi, mid), hs, p) <==> LiveAt(blocks, hs, p) && p != blocks[i].addr + hs
  {
    ReplaceLive(blocks, base, end, hs, lo, hi, mid, p);
    if LiveAt(blocks, hs, p) && blocks[lo].addr <= p - hs < blocks[hi - 1].addr + blocks[hi - 1].size {
      var q := LiveInRun(blocks, base, end, hs, lo, hi, p);
      assert q == i;
    }
    if lo < i { Ordered(blocks, base, end, hs, lo, i); }
    if i < hi - 1 { Ordered(blocks, base, end, hs, i, hi - 1); }
  }

  /** free ends the life of exactly one pointer. */
  lemma FreedLive(blocks: seq<Block>, base: int, end: int, hs: int, i: int, p: int)
    requires Tiled(blocks, base, end, hs) && 0 < hs && 0 <= i < |blocks| && !blocks[i].free
    ensures LiveAt(FreedBlocks(blocks, i), hs, p) <==> LiveAt(blocks, hs, p) && p != blocks[i].addr + hs
  {
    FreedIsOneRun(blocks, i);
    var lo := if FreeLeft(blocks, i) then i - 1 else i;
    var hi := if FreeRight(blocks, i) then i + 2 else i + 1;
    RunLive(blocks, base, end, hs, i, lo, hi,
      [Block(blocks[lo].addr, Bytes(blocks[lo..hi]), true, blocks[lo].poisoned)], p);
  }

  // -------------------------------------------------------- conservation

  /** The sizes of all blocks, headers included, add up to the region. */
  lemma {:induction false} Conservation(blocks: seq<Block>, base: int, end: int, hs: int)
    requires Tiled(blocks, base, end, hs)
    ensures Bytes(blocks) == end - base
    decreases |blocks|
  {
    if |blocks| > 1 {
      assert blocks[1..][0] == blocks[1] && blocks[1].addr == base + blocks[0].size;
      forall i, j | 0 <= i && j == i + 1 && j < |blocks[1..]|
        ensures blocks[1..][j].addr == blocks[1..][i].addr + blocks[1..][i].size
      {
        assert blocks[i + 1] == blocks[1..][i] && blocks[j + 1] == blocks[1..][j];
      }
      Conservation(blocks[1..], blocks[1].addr, end, hs);
    } else {
      assert blocks[1..] == [];
    }
  }

  /** Bytes of the blocks whose free flag is f. */
  ghost function BytesWhere(blocks: seq<Block>, f: bool): int {
    if blocks == [] then 0 else (if blocks[0].free == f then blocks[0].size else 0) + BytesWhere(blocks[1..], f)
  }

  lemma {:induction false} FreePlusUsed(blocks: seq<Block>)
    ensures BytesWhere(blocks, true) + BytesWhere(blocks, false) == Bytes(blocks)
  {
    if blocks != [] { FreePlusUsed(blocks[1..]); }
  }

  lemma FirstTwo(blocks: seq<Block>)
    requires Coalesced(blocks) && |blocks| > 1
    ensures !(blocks[0].free && blocks[1].free)
  {
  }

  /** Once nothing is live the heap is one free block of the full size. */
  lemma FullyCoalesced(blocks: seq<Block>, base: int, end: int, hs: int)
    requires Tiled(blocks, base, end, hs) && Coalesced(blocks) && NothingLive(blocks)
    ensures |blocks| == 1 && blocks[0].addr == base && blocks[0].size == end - base && blocks[0].free
  {
    if |blocks| > 1 {
      FirstTwo(blocks);
      assert false;
    }
  }

  /** free right after malloc restores the blocks exactly. */
  lemma FreeUndoesMalloc(blocks: seq<Block>, i: int, need: int, hs: int)
    requires Coalesced(blocks) && 0 <= i < |blocks| && blocks[i].free
    ensures var taken := TakenBlocks(blocks, i, need, hs);
      i < |taken| && !taken[i].free && taken[i].addr == blocks[i].addr && FreedBlocks(taken, i) == blocks
  {
    var b := blocks[i];
    var taken := TakenBlocks(blocks, i, need, hs);
    var mid := if Splits(b, need, hs) then Halves(b, need) else [b.(free := false)];
    assert taken == Replace(blocks, i, i + 1, mid);
    TakenNeighbours(blocks, i, mid);
    FreedIsOneRun(taken, i);
    BytesOfRun(taken, i, i + |mid|);
  }

  lemma TakenNeighbours(blocks: seq<Block>, i: int, mid: seq<Block>)
    requires Coalesced(blocks) && 0 <= i < |blocks| && blocks[i].free
    requires 1 <= |mid| <= 2 && !mid[0].free && (|mid| == 2 ==> mid[1].free)
    ensures var taken := Replace(blocks, i, i + 1, mid);
      && i + |mid| <= |taken| && taken[i] == mid[0] && (|mid| == 2 ==> taken[i + 1] == mid[1])
      && !FreeLeft(taken, i) && (FreeRight(taken, i) <==> |mid| == 2)
      && forall b :: Replace(taken, i, i + |mid|, [b]) == blocks[i := b]
  {
    var taken := Replace(blocks, i, i + 1, mid);
    ReplaceAt(blocks, i, i + 1, mid, i);
    if i > 0 { ReplaceAt(blocks, i, i + 1, mid, i - 1); }
    if i + 1 < |taken| { ReplaceAt(blocks, i, i + 1, mid, i + 1); }
    ReplaceIs(blocks, i, i + 1, mid);
    assert taken[..i] == blocks[..i] && taken[i + |mid|..] == blocks[i + 1..];
    forall b
      ensures Replace(taken, i, i + |mid|, [b]) == blocks[i := b]
    {
      ReplaceIs(taken, i, i + |mid|, [b]);
      assert blocks[i := b] == blocks[..i] + [b] + blocks[i + 1..];
    }
  }

  // ----------------------------------------------------------------- runs

  /** One call: malloc that takes block i for `need` bytes, or free of block i. */
  datatype Call = Take(i: int, need: int) | Release(i: int)

  ghost predicate Legal(blocks: seq<Block>, c: Call, hs: int) {
    && 0 <= c.i < |blocks|
    && match c
       case Take(i, need) => blocks[i].free && need % 8 == 0 && hs + MIN_BLOCK_SIZE <= need <= blocks[i].size
       case Release(i) => !blocks[i].free
  }

  ghost function Next(blocks: seq<Block>, c: Call, hs: int): seq<Block>
    requires Legal(blocks, c, hs)
  {
    match c
    case Take(i, need) => TakenBlocks(blocks, i, need, hs)
    case Release(i) => FreedBlocks(blocks, i)
  }

  ghost predicate LegalRun(blocks: seq<Block>, calls: seq<Call>, hs: int)
    decreases |calls|
  {
    calls == [] || (Legal(blocks, calls[0], hs) && LegalRun(Next(blocks, calls[0], hs), calls[1..], hs))
  }

  ghost function Run(blocks: seq<Block>, calls: seq<Call>, hs: int): seq<Block>
    requires LegalRun(blocks, calls, hs)
    decreases |calls|
  {
    if calls == [] then blocks else Run(Next(blocks, calls[0], hs), calls[1..], hs)
  }

  lemma NextTiled(blocks: seq<Block>, base: int, end: int, hs: int, c: Call)
    requires Tiled(blocks, base, end, hs) && Coalesced(blocks) && Legal(blocks, c, hs) && 0 < hs
    ensures Tiled(Next(blocks, c, hs), base, end, hs) && Coalesced(Next(blocks, c, hs))
  {
    match c
    case Take(i, need) =>
      TakenCoalesced(blocks, i, need, hs);
      if Splits(blocks[i], need, hs) {
        HalvesTiled(blocks[i], need, hs);
        ReplaceTiled(blocks, base, end, hs, i, i + 1, Halves(blocks[i], need));
      } else {
        ReplaceTiled(blocks, base, end, hs, i, i + 1, [blocks[i].(free := false)]);
      }
    case Release(i) =>
      FreedCoalesced(blocks, i);
      FreedTiled(blocks, base, end, hs, i);
  }

  lemma JoinTiled(blocks: seq<Block>, base: int, end: int, hs: int, i: int)
    requires Tiled(blocks, base, end, hs) && 0 < hs && 0 <= i && i + 1 < |blocks|
    ensures Tiled(Replace(blocks, i, i + 2, [Joined(blocks[i], blocks[i + 1])]), base, end, hs)
  {
    Multiples(blocks[i].size, blocks[i + 1].size);
    ReplaceTiled(blocks, base, end, hs, i, i + 2, [Joined(blocks[i], blocks[i + 1])]);
  }

  lemma FreedTiled(blocks: seq<Block>, base: int, end: int, hs: int, i: int)
    requires Tiled(blocks, base, end, hs) && 0 < hs && 0 <= i < |blocks|
    ensures Tiled(FreedBlocks(blocks, i), base, end, hs)
  {
    var fwd := ForwardBlocks(blocks, i);
    if FreeRight(blocks, i) {
      JoinTiled(blocks, base, end, hs, i);
    } else {
      ReplaceTiled(blocks, base, end, hs, i, i + 1, [Freed(blocks[i])]);
    }
    if FreeLeft(blocks, i) {
      ForwardAt(blocks, i);
      JoinTiled(fwd, base, end, hs, i - 1);
    }
  }

  /** Every run keeps the tiling and the coalescing; no byte is lost or gained. */
  lemma {:induction false} EveryRun(blocks: seq<Block>, base: int, end: int, hs: int, calls: seq<Call>)
    requires Tiled(blocks, base, end, hs) && Coalesced(blocks) && LegalRun(blocks, calls, hs) && 0 < hs
    ensures Tiled(Run(blocks, calls, hs), base, end, hs) && Coalesced(Run(blocks, calls, hs))
    ensures BytesWhere(Run(blocks, calls, hs), true) + BytesWhere(Run(blocks, calls, hs), false)
         == BytesWhere(blocks, true) + BytesWhere(blocks, false) == end - base
    decreases |calls|
  {
    FreePlusUsed(blocks);
    Conservation(blocks, base, end, hs);
    if calls != [] {
      NextTiled(blocks, base, end, hs, calls[0]);
      EveryRun(Next(blocks, calls[0], hs), base, end, hs, calls[1..]);
    }
  }

  /** A run that starts from one free block and frees all it took, in any order,
      ends with that block. */
  lemma FreeingAllRestores(b: Block, hs: int, calls: seq<Call>)
    requires b.free && b.addr % 8 == 0 && b.size % 8 == 0 && b.size >= hs > 0
    requires LegalRun([b], calls, hs) && NothingLive(Run([b], calls, hs))
    ensures var r := Run([b], calls, hs); |r| == 1 && r[0].addr == b.addr && r[0].size == b.size && r[0].free
  {
    EveryRun([b], b.addr, b.addr + b.size, hs, calls);
    FullyCoalesced(Run([b], calls, hs), b.addr, b.addr + b.size, hs);
  }

  // ------------------------------------------------- what malloc promises

  /** The payload handed out: 8-aligned, at least as long as asked for, and at
      most a header and a minimal block longer than the rounded request. What is
      left over is split off exactly when it is longer than that. */
  lemma PayloadFits(blocks: seq<Block>, base: int, end: int, hs: int, i: int, size: int)
    requires Tiled(blocks, base, end, hs) && 0 <= i < |blocks| && blocks[i].free && hs % 8 == 0 && 8 <= hs && 0 <= size
    requires blocks[i].size >= RoundUp(size) + hs
    ensures var taken := TakenBlocks(blocks, i, RoundUp(size) + hs, hs);
      && i < |taken| && !taken[i].free && taken[i].addr == blocks[i].addr
      && (taken[i].addr + hs) % 8 == 0
      && size <= RoundUp(size) <= taken[i].size - hs <= RoundUp(size) + hs + MIN_BLOCK_SIZE
      && var all := blocks[i].size - hs;
        taken[i].size - hs == if all - RoundUp(size) > hs + MIN_BLOCK_SIZE then RoundUp(size) else all
  {
    var need := RoundUp(size) + hs;
    RoundUpIs(size);
    var b := blocks[i];
    if Splits(b, need, hs) {
      ReplaceAt(blocks, i, i + 1, Halves(b, need), i);
    } else {
      ReplaceAt(blocks, i, i + 1, [b.(free := false)], i);
    }
    Multiples(b.addr, hs);
  }

  /** Payloads of different used blocks do not overlap. */
  lemma PayloadsDisjoint(blocks: seq<Block>, base: int, end: int, hs: int, i: int, j: int, x: int)
    requires Tiled(blocks, base, end, hs) && 0 < hs && 0 <= i < |blocks| && 0 <= j < |blocks| && i != j
    requires blocks[i].addr + hs <= x < blocks[i].addr + blocks[i].size
    ensures !(blocks[j].addr + hs <= x < blocks[j].addr + blocks[j].size)
  {
    if blocks[j].addr + hs <= x < blocks[j].addr + blocks[j].size {
      OneOwner(blocks, base, end, hs, i, j, x);
    }
  }

  /** Blocks other than the one handed out keep their place in the new tiling. */
  lemma TakenKeeps(blocks: seq<Block>, i: int, need: int, hs: int, q: int) returns (r: int)
    requires 0 <= i < |blocks| && 0 <= q < |blocks| && q != i
    ensures var taken := TakenBlocks(blocks, i, need, hs); 0 <= r < |taken| && taken[r] == blocks[q] && r != i
  {
    var b := blocks[i];
    var mid := if Splits(b, need, hs) then Halves(b, need) else [b.(free := false)];
    r := if q < i then q else q + |mid| - 1;
    ReplaceAt(blocks, i, i + 1, mid, r);
  }

  /** Used blocks other than the freed one keep their place in the new tiling. */
  lemma FreedKeeps(blocks: seq<Block>, i: int, q: int) returns (r: int)
    requires 0 <= i < |blocks| && 0 <= q < |blocks| && q != i && !blocks[q].free
    ensures var freed := FreedBlocks(blocks, i); 0 <= r < |freed| && freed[r] == blocks[q]
  {
    FreedIsOneRun(blocks, i);
    var lo := if FreeLeft(blocks, i) then i - 1 else i;
    var hi := if FreeRight(blocks, i) then i + 2 else i + 1;
    var mid := [Block(blocks[lo].addr, Bytes(blocks[lo..hi]), true, blocks[lo].poisoned)];
    r := if q < i then q else q - hi + lo + 1;
    ReplaceAt(blocks, lo, hi, mid, r);
  }
}
