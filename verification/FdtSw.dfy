/** The sequential writer of lib/libfdt/fdt_sw.c: one buffer in which the
    structure block grows upwards and the strings grow downwards from the end.
    Header fields are fields of the object; the buffer holds the blocks. */
module FdtSw {
  import opened Bytes
  import opened FdtTags
  import opened FdtStrings
  import opened FdtStream

  const FDT_MAGIC := 0xd00dfeed
  const SW_MAGIC := 0x2ff20112
  const HDR_SIZE := 48
  const ERR_BADMAGIC := 9
  const ERR_BADFLAGS := 18
  const NO_NAME_DEDUP := 1

  /** The header fields and the buffer. */
  datatype Blob = Blob(magic: int, totalsize: int, offStruct: int, offStrings: int, sizeStruct: int, sizeStrings: int,
    flags: int,
                       bytes: seq<byte>)

  /** In every state the two blocks lie in the buffer without touching. */
  ghost predicate Fits(f: Blob) {
    && HDR_SIZE <= f.offStruct && 0 <= f.sizeStruct && 0 <= f.sizeStrings
    && f.offStruct + f.sizeStruct + f.sizeStrings <= f.totalsize == |f.bytes| <= INT_MAX
  }

  /** The structure block so far. */
  ghost function StructOf(f: Blob): seq<byte>
    requires Fits(f)
  {
    f.bytes[f.offStruct..f.offStruct + f.sizeStruct]
  }

  /** The strings so far, at the end of the buffer. */
  ghost function TableOf(f: Blob): seq<byte>
    requires Fits(f)
  {
    f.bytes[f.totalsize - f.sizeStrings..f.totalsize]
  }

  // ------------------------------------------------------------- states

  /** Reservation entries may still be added. */
  ghost predicate InMemrsv(f: Blob) {
    f.magic == SW_MAGIC && f.offStrings == 0 && f.totalsize != 0
  }

  /** Nodes and properties may be written. */
  ghost predicate InStruct(f: Blob) {
    f.magic == SW_MAGIC && f.offStrings == f.totalsize
  }

  /** The blocks hold what the calls `es` wrote. */
  ghost predicate Drafted(f: Blob, toks: seq<Token>, es: seq<Entry>) {
    Fits(f) && InStruct(f) && Written(StructOf(f), TableOf(f), toks, es)
  }

  /** Bytes between the two blocks. */
  function Room(f: Blob): int {
    f.totalsize - f.offStruct - f.sizeStruct - f.sizeStrings
  }

  /** The name is in the table already and may be shared. */
  ghost predicate Shared(f: Blob, name: seq<byte>)
    requires Fits(f)
  {
    f.flags != NO_NAME_DEDUP && exists p :: Named(TableOf(f), p, name)
  }

  /** What the name of a property adds in front of the table. */
  ghost function NewName(flags: int, table: seq<byte>, name: seq<byte>): seq<byte> {
    if flags != NO_NAME_DEDUP && exists p :: Named(table, p, name) then [] else name + [0]
  }

  /** ... and how many bytes that is. */
  ghost function NameCost(f: Blob, name: seq<byte>): int
    requires Fits(f)
  {
    if Shared(f, name) then 0 else |name| + 1
  }

  /** Both blocks are as they were; other bytes may differ. */
  ghost predicate SameBlocks(f: Blob, g: Blob) {
    Fits(f) && Fits(g) && g == f.(bytes := g.bytes) && StructOf(g) == StructOf(f) && TableOf(g) == TableOf(f)
  }

  // ------------------------------------------------------ value-level steps

  ghost predicate SameAround(b: seq<byte>, c: seq<byte>, o: int, n: int)
    requires 0 <= o && 0 <= n && o + n <= |b| == |c|
  {
    c[..o] == b[..o] && c[o + n..] == b[o + n..]
  }

  ghost predicate FoldedSame(b: seq<byte>, c: seq<byte>, o: int, n: int, k: nat)
    requires 0 <= o && 0 <= n && o + n <= |b| == |c|
  {
    if k == 0 then SameAround(b, c, o, n) else FoldedSame(b, c, o, n, k - 1)
  }

  /** Only the bytes from o up to o + n differ. Folded; see `ChangedIs`. */
  ghost predicate Changed(b: seq<byte>, c: seq<byte>, o: int, n: int) {
    0 <= o && 0 <= n && o + n <= |b| == |c| && FoldedSame(b, c, o, n, |b| + 4)
  }

  lemma {:induction false} FoldedSameIs(b: seq<byte>, c: seq<byte>, o: int, n: int, k: nat)
    requires 0 <= o && 0 <= n && o + n <= |b| == |c|
    ensures FoldedSame(b, c, o, n, k) <==> SameAround(b, c, o, n)
  {
    if k > 0 { FoldedSameIs(b, c, o, n, k - 1); }
  }

  lemma ChangedIs(b: seq<byte>, c: seq<byte>, o: int, n: int)
    requires 0 <= o && 0 <= n && o + n <= |b| == |c|
    ensures Changed(b, c, o, n) <==> c[..o] == b[..o] && c[o + n..] == b[o + n..]
  {
    FoldedSameIs(b, c, o, n, |b| + 4);
  }

  lemma ChangedSlice(b: seq<byte>, c: seq<byte>, o: int, n: int, x: int, y: int)
    requires Changed(b, c, o, n) && 0 <= x <= y <= |b| && (y <= o || o + n <= x)
    ensures b[x..y] == c[x..y]
  {
    ChangedIs(b, c, o, n);
    if y <= o {
      SliceOfSlice(b, 0, o, x, y);
      SliceOfSlice(c, 0, o, x, y);
      assert b[0..o] == b[..o] && c[0..o] == c[..o];
    } else {
      var m := |b| - (o + n);
      SliceOfSlice(b, o + n, m, x - (o + n), y - (o + n));
      SliceOfSlice(c, o + n, m, x - (o + n), y - (o + n));
      assert b[o + n..o + n + m] == b[o + n..] && c[o + n..o + n + m] == c[o + n..];
    }
  }

  lemma OverwriteChanges(b: seq<byte>, o: int, d: seq<byte>, p: int, n: int)
    requires 0 <= p <= o && o + |d| <= p + n <= |b|
    ensures Changed(b, Overwrite(b, o, d), p, n)
  {
    OverwriteOutside(b, o, d, 0, p);
    OverwriteOutside(b, o, d, p + n, |b|);
    var c := Overwrite(b, o, d);
    assert b[0..p] == b[..p] && c[0..p] == c[..p] && b[p + n..|b|] == b[p + n..] && c[p + n..|c|] == c[p + n..];
    ChangedIs(b, c, p, n);
  }

  lemma ChangedTwice(b: seq<byte>, c: seq<byte>, d: seq<byte>, o: int, n: int)
    requires Changed(b, c, o, n) && Changed(c, d, o, n)
    ensures Changed(b, d, o, n)
  {
    ChangedIs(b, c, o, n);
    ChangedIs(c, d, o, n);
    ChangedIs(b, d, o, n);
  }

  /** c is b with token t put at o. */
  ghost predicate Put(b: seq<byte>, c: seq<byte>, o: int, t: Token) {
    Holds(c, o, t) && Changed(b, c, o, Size(t))
  }

  lemma BuiltBegin(b: seq<byte>, o: int, name: seq<byte>)
    requires 0 <= o && o + Size(Begin(name)) <= |b| && NoNul(name)
    ensures o + 4 <= |b| && o + 5 + |name| <= |b|
    ensures var c := Overwrite(Overwrite(b, o, Word(BEGIN_NODE)), o + 4, name + [0]);
      Put(b, c, o, Begin(name))
  {
    AlignUp(|name| + 1);
    var t := Begin(name);
    var b1 := Overwrite(b, o, Word(BEGIN_NODE));
    var c := Overwrite(b1, o + 4, name + [0]);
    OverwriteInside(b, o, Word(BEGIN_NODE));
    OverwriteOutside(b1, o + 4, name + [0], o, o + 4);
    WordReads(BEGIN_NODE);
    SameWord(c, Word(BEGIN_NODE), o, 0);
    OverwriteInside(b1, o + 4, name + [0]);
    SliceOfSlice(c, o + 4, |name| + 1, 0, |name|);
    assert (name + [0])[..|name|] == name;
    assert c[o + 4..o + 4 + |name| + 1][|name|] == 0;
    HoldsIs(c, o, t);
    OverwriteChanges(b, o, Word(BEGIN_NODE), o, Size(t));
    OverwriteChanges(b1, o + 4, name + [0], o, Size(t));
    ChangedTwice(b, b1, c, o, Size(t));
  }

  lemma BuiltTag(b: seq<byte>, o: int, t: Token)
    requires 0 <= o && o + 4 <= |b| && (t.EndNode? || t.Fin?)
    ensures Put(b, Overwrite(b, o, Word(TagOf(t))), o, t)
  {
    var c := Overwrite(b, o, Word(TagOf(t)));
    OverwriteInside(b, o, Word(TagOf(t)));
    WordReads(TagOf(t));
    SameWord(c, Word(TagOf(t)), o, 0);
    HoldsIs(c, o, t);
    OverwriteChanges(b, o, Word(TagOf(t)), o, 4);
  }

  /** The three words of struct fdt_property. */
  function PropHead(len: int, nameoff: int): (h: seq<byte>)
    requires 0 <= len < U32 && 0 <= nameoff < U32
    ensures |h| == 12
  {
    Word(PROP) + Word(len) + Word(nameoff)
  }

  lemma PropHeadReads(len: int, nameoff: int)
    requires 0 <= len < U32 && 0 <= nameoff < U32
    ensures var h := PropHead(len, nameoff); Get32(h, 0) == PROP && Get32(h, 4) == len && Get32(h, 8) == nameoff
  {
    var h := PropHead(len, nameoff);
    WordReads(PROP);
    WordReads(len);
    WordReads(nameoff);
    assert h[0..4] == Word(PROP)[0..4] && h[4..8] == Word(len)[0..4] && h[8..12] == Word(nameoff)[0..4];
    SameWord(h, Word(PROP), 0, 0);
    SameWord(h, Word(len), 4, 0);
    SameWord(h, Word(nameoff), 8, 0);
  }

  lemma BuiltProp(b: seq<byte>, o: int, nameoff: int, val: seq<byte>)
    requires 0 <= o && o + Size(Prop(nameoff, val)) <= |b| && 0 <= nameoff < U32 && |val| < U32
    ensures o + 12 + |val| <= |b|
    ensures var c := Overwrite(Overwrite(b, o, PropHead(|val|, nameoff)), o + 12, val);
      Put(b, c, o, Prop(nameoff, val))
  {
    AlignUp(|val|);
    var t := Prop(nameoff, val);
    var h := PropHead(|val|, nameoff);
    var b1 := Overwrite(b, o, h);
    var c := Overwrite(b1, o + 12, val);
    OverwriteInside(b, o, h);
    OverwriteOutside(b1, o + 12, val, o, o + 12);
    assert h[0..12] == h;
    PropHeadReads(|val|, nameoff);
    WordMoved(c, h, o, 0, 12, 0);
    WordMoved(c, h, o, 0, 12, 4);
    WordMoved(c, h, o, 0, 12, 8);
    OverwriteInside(b1, o + 12, val);
    HoldsIs(c, o, t);
    OverwriteChanges(b, o, h, o, Size(t));
    OverwriteChanges(b1, o + 12, val, o, Size(t));
    ChangedTwice(b, b1, c, o, Size(t));
  }

  /** Blocks of the blob before and after a token is written. */
  lemma TokenPlaced(f: Blob, c: seq<byte>, t: Token)
    requires Fits(f) && f.offStruct + f.sizeStruct + Size(t) + f.sizeStrings <= f.totalsize
    requires Changed(f.bytes, c, f.offStruct + f.sizeStruct, Size(t)) && Holds(c, f.offStruct + f.sizeStruct, t)
    ensures var g := f.(sizeStruct := f.sizeStruct + Size(t), bytes := c);
      && TableOf(g) == TableOf(f) && StructOf(g)[..f.sizeStruct] == StructOf(f)
      && Holds(StructOf(g), f.sizeStruct, t)
  {
    var top, n, k := f.offStruct + f.sizeStruct, Size(t), f.sizeStruct;
    ChangedSlice(f.bytes, c, top, n, f.offStruct, top);
    ChangedSlice(f.bytes, c, top, n, f.totalsize - f.sizeStrings, f.totalsize);
    SliceOfSlice(c, f.offStruct, k + n, 0, k);
    SliceOfSlice(c, f.offStruct, k + n, k, k + n);
    var s := c[f.offStruct..f.offStruct + (k + n)];
    assert s[..k] == s[0..k];
    HoldsMoved(c, s, top, k, t);
  }

  /** A token written right above the structure block extends the draft. */
  lemma TokenAdded(f: Blob, g: Blob, toks: seq<Token>, es: seq<Entry>, t: Token, e: Entry)
    requires Drafted(f, toks, es) && f.offStruct + f.sizeStruct + Size(t) + f.sizeStrings <= f.totalsize
    requires g == f.(sizeStruct := f.sizeStruct + Size(t), bytes := g.bytes)
    requires Put(f.bytes, g.bytes, f.offStruct + f.sizeStruct, t)
    requires Drafts(TableOf(f), t, e)
    ensures Drafted(g, toks + [t], es + [e]) && TableOf(g) == TableOf(f)
  {
    TokenPlaced(f, g.bytes, t);
    WrittenMore(StructOf(f), StructOf(g), TableOf(f), toks, es, t, e);
  }

  lemma TableGrown(b: seq<byte>, o: int, d: seq<byte>, end: int)
    requires 0 <= o && o + |d| <= end <= |b|
    ensures Overwrite(b, o, d)[o..end] == d + b[o + |d|..end]
  {
    var c := Overwrite(b, o, d);
    OverwriteOutside(b, o, d, o + |d|, end);
    OverwriteInside(b, o, d);
    assert c[o..end] == c[o..o + |d|] + c[o + |d|..end];
  }

  lemma StringPlaced(f: Blob, g: Blob, name: seq<byte>)
    requires Fits(f) && Fits(g) && g == f.(sizeStrings := f.sizeStrings + |name| + 1, bytes := g.bytes)
    requires g.bytes == Overwrite(f.bytes, f.totalsize - f.sizeStrings - |name| - 1, name + [0])
    ensures StructOf(g) == StructOf(f) && TableOf(g) == name + [0] + TableOf(f)
  {
    var o := f.totalsize - f.sizeStrings - |name| - 1;
    OverwriteOutside(f.bytes, o, name + [0], f.offStruct, f.offStruct + f.sizeStruct);
    TableGrown(f.bytes, o, name + [0], f.totalsize);
  }

  /** A string written right below the table extends the table. */
  lemma StringAdded(f: Blob, g: Blob, toks: seq<Token>, es: seq<Entry>, name: seq<byte>)
    requires Drafted(f, toks, es) && NoNul(name) && Fits(g)
    requires g == f.(sizeStrings := f.sizeStrings + |name| + 1, bytes := g.bytes)
    requires g.bytes == Overwrite(f.bytes, f.totalsize - f.sizeStrings - |name| - 1, name + [0])
    ensures Drafted(g, toks, es) && Named(TableOf(g), 0, name) && TableOf(g) == name + [0] + TableOf(f)
    ensures Grown(f, g, |name| + 1)
  {
    var o := g.totalsize - g.sizeStrings;
    OverwriteChanges(f.bytes, o, name + [0], o, |name| + 1);
    StringPlaced(f, g, name);
    WrittenPrepend(StructOf(f), name + [0], TableOf(f), toks, es);
    NamedFirst(name, TableOf(f));
  }

  /** The table has grown by n bytes. */
  ghost predicate Grown(f: Blob, g: Blob, n: int) {
    && Fits(f) && Fits(g) && 0 <= n && g == f.(sizeStrings := f.sizeStrings + n, bytes := g.bytes)
    && Changed(f.bytes, g.bytes, f.totalsize - f.sizeStrings - n, n)
  }

  /** Rolling the size back leaves the old table in place. */
  lemma StringDropped(f: Blob, g: Blob, n: int)
    requires Grown(f, g, n)
    ensures SameBlocks(f, g.(sizeStrings := g.sizeStrings - n))
  {
    ChangedSlice(f.bytes, g.bytes, f.totalsize - f.sizeStrings - n, n, f.offStruct, f.offStruct + f.sizeStruct);
    ChangedSlice(f.bytes, g.bytes, f.totalsize - f.sizeStrings - n, n, f.totalsize - f.sizeStrings, f.totalsize);
  }

  // ----------------------------------------------------------- finishing

  /** The terminator closes the run of tokens. */
  lemma FinAdded(f: Blob, g: Blob, toks: seq<Token>, es: seq<Entry>)
    requires Drafted(f, toks, es) && f.offStruct + f.sizeStruct + 4 + f.sizeStrings <= f.totalsize && Fits(g)
    requires g == f.(sizeStruct := f.sizeStruct + 4, bytes := g.bytes)
    requires Put(f.bytes, g.bytes, f.offStruct + f.sizeStruct, Fin)
    ensures Sealed(StructOf(g), TableOf(g), toks, es)
  {
    TokenPlaced(f, g.bytes, Fin);
    WrittenIs(StructOf(f), TableOf(f), toks, es);
    LaidMore(StructOf(f), StructOf(g), toks, Fin);
    DraftsNoFin(TableOf(f), toks, es);
    SealedIs(StructOf(g), TableOf(g), toks, es);
  }

  /** The strings move down to the end of the structure block. */
  lemma StringsMoved(g: Blob, c: seq<byte>)
    requires Fits(g) && c == Overwrite(g.bytes, g.offStruct + g.sizeStruct, TableOf(g))
    ensures var top := g.offStruct + g.sizeStruct;
      c[g.offStruct..top] == StructOf(g) && c[top..top + g.sizeStrings] == TableOf(g)
  {
    var top := g.offStruct + g.sizeStruct;
    OverwriteOutside(g.bytes, top, TableOf(g), g.offStruct, top);
    OverwriteInside(g.bytes, top, TableOf(g));
  }

  lemma MovedSealed(g: Blob, c: seq<byte>, toks: seq<Token>, es: seq<Entry>)
    requires Fits(g) && Sealed(StructOf(g), TableOf(g), toks, es)
    requires var src := g.totalsize - g.sizeStrings;
      c == Overwrite(g.bytes, g.offStruct + g.sizeStruct, g.bytes[src..src + g.sizeStrings])
    ensures var top := g.offStruct + g.sizeStruct; Sealed(c[g.offStruct..top], c[top..top + g.sizeStrings], toks, es)
  {
    StringsMoved(g, c);
  }

  lemma NamePatched(b: seq<byte>, c: seq<byte>, a: int, n: int, o: int, w: seq<byte>)
    requires 0 <= a && a + n <= |b| && 0 <= o && o + |w| <= n && c == Overwrite(b, a + o, w)
    ensures c[a..a + n] == Overwrite(b[a..a + n], o, w) && Changed(b, c, a, n)
  {
    OverwriteSlice(b, a, n, o, w);
    OverwriteChanges(b, a + o, w, a, n);
  }
}
