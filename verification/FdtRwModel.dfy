/** Read-write editing (lib/libfdt/fdt_rw.c) on values: header fields and bytes
    of a finished blob, and what a splice makes of its blocks. */
module FdtRwModel {
  import opened Bytes
  import opened FdtTags
  import opened FdtStream
  import opened FdtSw

  const ERR_EXISTS := 2
  const ERR_BADLAYOUT := 12
  const ERR_INTERNAL := 13

  datatype Rw = Rw(totalsize: int, offRsv: int, offStruct: int, sizeStruct: int, offStrings: int, sizeStrings: int,
    bytes: seq<byte>)

  /** fdt_blocks_misordered_ (lines 13-23) as fdt_rw_probe_ calls it. */
  function Misordered(f: Rw): bool {
    || f.offRsv < 40 || f.offStruct < f.offRsv + 16
    || f.offStrings < f.offStruct + f.sizeStruct || f.totalsize < f.offStrings + f.sizeStrings
  }

  /** The blob is in memory; its size fits into an int (fdt_check_header). */
  ghost predicate InMemory(f: Rw) {
    && 0 <= f.offStruct && 0 <= f.sizeStruct && 0 <= f.offStrings && 0 <= f.sizeStrings
    && f.totalsize <= |f.bytes| <= INT_MAX
  }

  /** ... and passes the probe. */
  ghost predicate Ordered(f: Rw) {
    InMemory(f) && !Misordered(f)
  }

  ghost function BlockOf(f: Rw): Block
    requires Ordered(f)
  {
    f.bytes[f.offStruct..f.offStruct + f.sizeStruct]
  }

  ghost function StringsOf(f: Rw): seq<byte>
    requires Ordered(f)
  {
    f.bytes[f.offStrings..f.offStrings + f.sizeStrings]
  }

  /** fdt_data_size_ (lines 54-57). */
  function DataSize(f: Rw): int { f.offStrings + f.sizeStrings }

  // ---------------------------------------------------------------- opening

  ghost predicate OpenedBody(b: seq<byte>, c: seq<byte>, p: int, x: int, y: int, size: int) {
    && 0 <= p && 0 <= x && 0 <= y && p + x <= size <= |b| == |c| && size - x + y <= |c|
    && c[..p] == b[..p] && c[p + y..size - x + y] == b[p + x..size]
  }

  ghost predicate FoldedOpened(b: seq<byte>, c: seq<byte>, p: int, x: int, y: int, size: int, n: nat) {
    if n == 0 then OpenedBody(b, c, p, x, y, size) else FoldedOpened(b, c, p, x, y, size, n - 1)
  }

  /** The x bytes at p have given way to y bytes; data behind them, up to size,
      has moved. Folded; see `OpenedIs`. */
  ghost predicate Opened(b: seq<byte>, c: seq<byte>, p: int, x: int, y: int, size: int) {
    FoldedOpened(b, c, p, x, y, size, |b| + 4)
  }

  lemma {:induction false} FoldedOpenedIs(b: seq<byte>, c: seq<byte>, p: int, x: int, y: int, size: int, n: nat)
    ensures FoldedOpened(b, c, p, x, y, size, n) <==> OpenedBody(b, c, p, x, y, size)
  {
    if n > 0 { FoldedOpenedIs(b, c, p, x, y, size, n - 1); }
  }

  lemma OpenedIs(b: seq<byte>, c: seq<byte>, p: int, x: int, y: int, size: int)
    ensures Opened(b, c, p, x, y, size) <==> OpenedBody(b, c, p, x, y, size)
  {
    FoldedOpenedIs(b, c, p, x, y, size, |b| + 4);
  }

  /** The memmove of fdt_splice_ (line 71) opens the gap. */
  lemma MoveOpens(b: seq<byte>, c: seq<byte>, p: int, x: int, y: int, size: int)
    requires 0 <= p && 0 <= x && 0 <= y && p + x <= size <= |b| && size - x + y <= |b|
    requires c == Overwrite(b, p + y, b[p + x..size])
    ensures Opened(b, c, p, x, y, size)
  {
    OverwriteOutside(b, p + y, b[p + x..size], 0, p);
    OverwriteInside(b, p + y, b[p + x..size]);
    assert b[0..p] == b[..p] && c[0..p] == c[..p];
    OpenedIs(b, c, p, x, y, size);
  }

  /** Writing into the gap keeps the rest. */
  lemma OpenedWrite(b: seq<byte>, c: seq<byte>, e: seq<byte>, p: int, x: int, y: int, size: int, o: int, d: seq<byte>)
    requires Opened(b, c, p, x, y, size) && p <= o && o + |d| <= p + y && 0 <= o && o + |d| <= |c|
    requires e == Overwrite(c, o, d)
    ensures Opened(b, e, p, x, y, size)
  {
    OpenedIs(b, c, p, x, y, size);
    OverwriteOutside(c, o, d, 0, p);
    OverwriteOutside(c, o, d, p + y, size - x + y);
    assert c[0..p] == c[..p] && e[0..p] == e[..p];
    OpenedIs(b, e, p, x, y, size);
  }

  /** A gap may be seen as starting earlier, with bytes that stay. */
  lemma OpenedWiden(b: seq<byte>, c: seq<byte>, p: int, x: int, y: int, size: int, k: int)
    requires Opened(b, c, p, x, y, size) && 0 <= k <= p
    ensures Opened(b, c, p - k, x + k, y + k, size)
  {
    OpenedIs(b, c, p, x, y, size);
    assert c[..p - k] == c[..p][..p - k] && b[..p - k] == b[..p][..p - k];
    OpenedIs(b, c, p - k, x + k, y + k, size);
  }

  lemma OpenedSlices(b: seq<byte>, c: seq<byte>, p: int, x: int, y: int, size: int, lo: int, hi: int)
    requires Opened(b, c, p, x, y, size) && 0 <= lo <= p && p + x <= hi <= size
    ensures 0 <= x && 0 <= y && size <= |b| && size - x + y <= |c|
    ensures c[lo..p] == b[lo..p] && c[p + y..hi - x + y] == b[p + x..hi]
    ensures c[hi - x + y..size - x + y] == b[hi..size]
  {
    OpenedIs(b, c, p, x, y, size);
    assert c[lo..p] == c[..p][lo..] && b[lo..p] == b[..p][lo..];
    SubSlice(c, b, p + y, p + x, size - p - x, 0, hi - p - x);
    SubSlice(c, b, p + y, p + x, size - p - x, hi - p - x, size - p - x);
  }

  // ---------------------------------------------------------------- splicing

  ghost predicate SplicedBody(f: Rw, g: Rw, o: int, x: int, n: Block) {
    && Ordered(f) && Ordered(g) && 0 <= o && 0 <= x && o + x <= f.sizeStruct
    && g == f.(sizeStruct := f.sizeStruct - x + |n|, offStrings := f.offStrings - x + |n|, bytes := g.bytes)
    && BlockOf(g) == BlockOf(f)[..o] + n + BlockOf(f)[o + x..]
    && StringsOf(g) == StringsOf(f) && g.bytes[..f.offStruct] == f.bytes[..f.offStruct]
  }

  ghost predicate FoldedSpliced(f: Rw, g: Rw, o: int, x: int, n: Block, k: nat) {
    if k == 0 then SplicedBody(f, g, o, x, n) else FoldedSpliced(f, g, o, x, n, k - 1)
  }

  /** In the structure block the x bytes at o have become n; the strings and what
      is in front of the block are as they were. Folded; see `SplicedIs`. */
  ghost predicate Spliced(f: Rw, g: Rw, o: int, x: int, n: Block) {
    FoldedSpliced(f, g, o, x, n, |n| + 4)
  }

  lemma {:induction false} FoldedSplicedIs(f: Rw, g: Rw, o: int, x: int, n: Block, k: nat)
    ensures FoldedSpliced(f, g, o, x, n, k) <==> SplicedBody(f, g, o, x, n)
  {
    if k > 0 { FoldedSplicedIs(f, g, o, x, n, k - 1); }
  }

  lemma SplicedIs(f: Rw, g: Rw, o: int, x: int, n: Block)
    ensures Spliced(f, g, o, x, n) <==> SplicedBody(f, g, o, x, n)
  {
    FoldedSplicedIs(f, g, o, x, n, |n| + 4);
  }

  lemma ThreeParts(c: seq<byte>, a: int, p: int, q: int, e: int)
    requires 0 <= a <= p <= q <= e <= |c|
    ensures c[a..e] == c[a..p] + c[p..q] + c[q..e]
  {
  }

  lemma BlockParts(b: seq<byte>, a: int, e: int, o: int, x: int)
    requires 0 <= a <= e <= |b| && 0 <= o && 0 <= x && a + o + x <= e
    ensures b[a..e][..o] == b[a..a + o] && b[a..e][o + x..] == b[a + o + x..e]
  {
  }

  /** A block around the gap. */
  lemma OpenedBlock(b: seq<byte>, c: seq<byte>, a: int, top: int, o: int, x: int, y: int, size: int)
    requires Opened(b, c, a + o, x, y, size) && 0 <= a && 0 <= o && 0 <= x && 0 <= y && a + o + x <= top <= size <= |b|
    requires size - x + y <= |c|
    ensures c[a..top - x + y] == b[a..top][..o] + c[a + o..a + o + y] + b[a..top][o + x..]
  {
    OpenedSlices(b, c, a + o, x, y, size, a, top);
    ThreeParts(c, a, a + o, a + o + y, top - x + y);
    BlockParts(b, a, top, o, x);
  }

  /** What an opened gap in the structure block amounts to. */
  lemma OpenedSplices(f: Rw, g: Rw, o: int, x: int, y: int)
    requires Ordered(f) && 0 <= o && 0 <= x && 0 <= y && o + x <= f.sizeStruct && DataSize(f) - x + y <= f.totalsize
    requires g == f.(sizeStruct := f.sizeStruct - x + y, offStrings := f.offStrings - x + y, bytes := g.bytes)
    requires Opened(f.bytes, g.bytes, f.offStruct + o, x, y, DataSize(f)) && |g.bytes| == |f.bytes|
    requires f.offStruct + o + y <= |g.bytes|
    ensures Spliced(f, g, o, x, g.bytes[f.offStruct + o..f.offStruct + o + y])
  {
    var b, c, a, p := f.bytes, g.bytes, f.offStruct, f.offStruct + o;
    OpenedBlock(b, c, a, a + f.sizeStruct, o, x, y, DataSize(f));
    OpenedSlices(b, c, p, x, y, DataSize(f), 0, f.offStrings);
    assert b[0..p] == b[..p] && c[0..p] == c[..p];
    PrefixSlice(b, c, p, 0, a);
    assert b[0..a] == b[..a] && c[0..a] == c[..a];
    SplicedIs(f, g, o, x, c[p..p + y]);
  }

  // ----------------------------------------------------------------- strings

  /** The bytes d have been added to the strings block. */
  ghost predicate Appended(f: Rw, g: Rw, d: seq<byte>) {
    && Ordered(f) && Ordered(g) && g == f.(sizeStrings := f.sizeStrings + |d|, bytes := g.bytes)
    && StringsOf(g) == StringsOf(f) + d && BlockOf(g) == BlockOf(f) && g.bytes[..f.offStruct] == f.bytes[..f.offStruct]
  }

  /** Bytes written right behind the strings block. */
  lemma WriteAppends(f: Rw, c: seq<byte>, g: Rw, d: seq<byte>)
    requires Ordered(f) && DataSize(f) + |d| <= f.totalsize && |c| == |f.bytes|
    requires c[..DataSize(f)] == f.bytes[..DataSize(f)]
    requires g == f.(sizeStrings := f.sizeStrings + |d|, bytes := Overwrite(c, DataSize(f), d))
    ensures Appended(f, g, d)
  {
    var b, o := f.bytes, DataSize(f);
    assert g.bytes[..o] == c[..o] == b[..o];
    PrefixSlice(b, g.bytes, o, 0, f.offStruct);
    PrefixSlice(b, g.bytes, o, f.offStruct, f.offStruct + f.sizeStruct);
    PrefixSlice(b, g.bytes, o, f.offStrings, o);
    OverwriteInside(c, o, d);
    assert g.bytes[f.offStrings..o + |d|] == g.bytes[f.offStrings..o] + g.bytes[o..o + |d|];
    assert b[0..f.offStruct] == b[..f.offStruct] && g.bytes[0..f.offStruct] == g.bytes[..f.offStruct];
  }

  lemma PrefixSlice(b: seq<byte>, c: seq<byte>, o: int, x: int, y: int)
    requires 0 <= x <= y <= o <= |b| && o <= |c| && b[..o] == c[..o]
    ensures b[x..y] == c[x..y]
  {
    assert b[x..y] == b[..o][x..y] && c[x..y] == c[..o][x..y];
  }

  /** Blocks, sizes and offsets are as they were. */
  ghost predicate SameTree(f: Rw, g: Rw) {
    Ordered(f) && Ordered(g) && g == f.(bytes := g.bytes) && BlockOf(g) == BlockOf(f) && StringsOf(g) == StringsOf(f)
  }

  /** Taking the added string back. */
  lemma AppendedBack(f: Rw, g: Rw, d: seq<byte>)
    requires Appended(f, g, d)
    ensures SameTree(f, g.(sizeStrings := g.sizeStrings - |d|))
  {
    SliceOfSlice(g.bytes, g.offStrings, g.sizeStrings, 0, f.sizeStrings);
    assert StringsOf(g)[0..f.sizeStrings] == StringsOf(f);
  }

  /** Cutting out what was put in. */
  lemma SpliceBack(f: Rw, g: Rw, h: Rw, o: int, n: Block)
    requires Spliced(f, g, o, 0, n) && Spliced(g, h, o, |n|, [])
    ensures SameTree(f, h)
  {
    SplicedIs(f, g, o, 0, n);
    SplicedIs(g, h, o, |n|, []);
    var b, c := BlockOf(f), BlockOf(g);
    assert c[..o] == b[..o] && c[o + |n|..] == b[o..];
    assert BlockOf(h) == b[..o] + b[o..];
  }

  // -------------------------------------------------------------- properties

  /** The x bytes at o have become the token t. */
  ghost predicate TokenSpliced(f: Rw, g: Rw, o: int, x: int, t: Token) {
    exists n: Block :: Spliced(f, g, o, x, n) && |n| == Size(t) && Holds(n, 0, t)
  }

  lemma GapHolds(f: Rw, g: Rw, o: int, x: int, t: Token)
    requires Ordered(f) && 0 <= o && 0 <= x && o + x <= f.sizeStruct && DataSize(f) - x + Size(t) <= f.totalsize
    requires g == f.(sizeStruct := f.sizeStruct - x + Size(t), offStrings := f.offStrings - x
      + Size(t), bytes := g.bytes)
    requires Opened(f.bytes, g.bytes, f.offStruct + o, x, Size(t), DataSize(f)) && |g.bytes| == |f.bytes|
    requires Holds(g.bytes, f.offStruct + o, t)
    ensures TokenSpliced(f, g, o, x, t)
  {
    var p := f.offStruct + o;
    HoldsBound(g.bytes, p, t);
    var n := g.bytes[p..p + Size(t)];
    OpenedSplices(f, g, o, x, Size(t));
    assert n[0..Size(t)] == n;
    HoldsMoved(g.bytes, n, p, 0, t);
  }

  /** A property rewritten in place behind a gap for its value (lib/libfdt/fdt_rw.c:212-216). */
  lemma PropRewritten(b: seq<byte>, c: seq<byte>, e: seq<byte>, p: int, x: int, y: int, size: int, tok: Token,
      val: seq<byte>)
    requires Opened(b, c, p + 12, x, y, size) && Holds(b, p, tok) && tok.Prop? && y == Align4(|val|) && |val| <= INT_MAX
    requires 0 <= p
    requires p + 12 + |val| <= |c| && e == Overwrite(Overwrite(c, p + 4, Word(|val|)), p + 12, val)
    ensures Opened(b, e, p, 12 + x, 12 + y, size) && Holds(e, p, Prop(tok.nameoff, val))
  {
    var c1 := Overwrite(c, p + 4, Word(|val|));
    AlignUp(|val|);
    OpenedWiden(b, c, p + 12, x, y, size, 12);
    OpenedWrite(b, c, c1, p, 12 + x, 12 + y, size, p + 4, Word(|val|));
    OpenedWrite(b, c1, e, p, 12 + x, 12 + y, size, p + 12, val);
    RewrittenHolds(b, c, e, p, x, y, size, tok, val);
  }

  lemma RewrittenHolds(b: seq<byte>, c: seq<byte>, e: seq<byte>, p: int, x: int, y: int, size: int, tok: Token,
      val: seq<byte>)
    requires Opened(b, c, p + 12, x, y, size) && Holds(b, p, tok) && tok.Prop? && y == Align4(|val|) && |val| <= INT_MAX
    requires 0 <= p
    requires p + 12 + |val| <= |c| && e == Overwrite(Overwrite(c, p + 4, Word(|val|)), p + 12, val)
    ensures Holds(e, p, Prop(tok.nameoff, val))
  {
    var w := Word(|val|);
    var c1 := Overwrite(c, p + 4, w);
    AlignUp(|val|);
    OpenedIs(b, c, p + 12, x, y, size);
    HoldsIs(b, p, tok);
    assert c[..p + 12][p..p + 4] == c[p..p + 4] && b[..p + 12][p..p + 4] == b[p..p + 4];
    assert c[..p + 12][p + 8..p + 12] == c[p + 8..p + 12] && b[..p + 12][p + 8..p + 12] == b[p + 8..p + 12];
    OverwriteOutside(c, p + 4, w, p, p + 4);
    OverwriteOutside(c, p + 4, w, p + 8, p + 12);
    OverwriteInside(c, p + 4, w);
    OverwriteOutside(c1, p + 12, val, p, p + 4);
    OverwriteOutside(c1, p + 12, val, p + 4, p + 8);
    OverwriteOutside(c1, p + 12, val, p + 8, p + 12);
    OverwriteInside(c1, p + 12, val);
    WordReads(|val|);
    SameWord(e, b, p, p);
    SameWord(e, w, p + 4, 0);
    SameWord(e, b, p + 8, p + 8);
    HoldsIs(e, p, Prop(tok.nameoff, val));
  }
}
