/** fdt_resize (lib/libfdt/fdt_sw.c:148-186): a tree under construction moves to
    another buffer, which may overlap the old one in any way. */
module FdtResize {
  import opened Bytes
  import opened FdtTags
  import opened FdtStream
  import opened FdtSw
  import opened MemOps

  const ERR_INTERNAL := 13

  datatype Header = Header(magic: int, totalsize: int, offStruct: int, offStrings: int, sizeStruct: int,
    sizeStrings: int, flags: int)

  function HeadSize(h: Header): int { h.offStruct + h.sizeStruct }

  /** Head and tail of the old buffer are head and tail of the new one. */
  ghost predicate Carried(m: seq<byte>, m': seq<byte>, h: Header, fdt: int, buf: int, bufsize: int) {
    && 0 <= HeadSize(h) && 0 <= h.sizeStrings && HeadSize(h) + h.sizeStrings <= h.totalsize
    && HeadSize(h) + h.sizeStrings <= bufsize
    && 0 <= fdt && fdt + h.totalsize <= |m| && 0 <= buf && buf + bufsize <= |m| == |m'|
    && m'[buf..buf + HeadSize(h)] == m[fdt..fdt + HeadSize(h)]
    && m'[buf + bufsize - h.sizeStrings..buf + bufsize] == m[fdt + h.totalsize - h.sizeStrings..fdt + h.totalsize]
    && Changed(m, m', buf, bufsize)
  }

  /** Two copies in an order in which neither destroys what is still needed. */
  lemma TwoMoves(m: seq<byte>, d1: int, s1: int, n1: nat, d2: int, s2: int, n2: nat)
    requires 0 <= s1 && s1 + n1 <= |m| && 0 <= d1 && d1 + n1 <= |m| && 0 <= s2 && s2 + n2 <= |m| && 0 <= d2
    requires d2 + n2 <= |m|
    requires d1 + n1 <= s2 || s2 + n2 <= d1
    requires d1 + n1 <= d2 || d2 + n2 <= d1
    ensures var m1 := Overwrite(m, d1, m[s1..s1 + n1]);
      var m2 := Overwrite(m1, d2, m1[s2..s2 + n2]);
      m2[d1..d1 + n1] == m[s1..s1 + n1] && m2[d2..d2 + n2] == m[s2..s2 + n2]
  {
    var m1 := Overwrite(m, d1, m[s1..s1 + n1]);
    OverwriteOutside(m, d1, m[s1..s1 + n1], s2, s2 + n2);
    OverwriteInside(m, d1, m[s1..s1 + n1]);
    OverwriteInside(m1, d2, m1[s2..s2 + n2]);
    OverwriteOutside(m1, d2, m1[s2..s2 + n2], d1, d1 + n1);
  }

  /** Two copies into the bytes from lo up to hi. */
  method MoveTwo(mem: array<byte>, d1: int, s1: int, n1: nat, d2: int, s2: int, n2: nat, ghost lo: int, ghost hi: int)
    requires 0 <= s1 && s1 + n1 <= mem.Length && 0 <= s2 && s2 + n2 <= mem.Length
    requires 0 <= lo <= d1 && d1 + n1 <= hi <= mem.Length && lo <= d2 && d2 + n2 <= hi
    requires d1 + n1 <= s2 || s2 + n2 <= d1
    requires d1 + n1 <= d2 || d2 + n2 <= d1
    modifies mem
    ensures mem[..][d1..d1 + n1] == old(mem[..])[s1..s1 + n1] && mem[..][d2..d2 + n2] == old(mem[..])[s2..s2 + n2]
    ensures Changed(old(mem[..]), mem[..], lo, hi - lo)
  {
    ghost var m := mem[..];
    TwoMoves(m, d1, s1, n1, d2, s2, n2);
    TwoMovesWithin(m, d1, s1, n1, d2, s2, n2, lo, hi);
    Memmove(mem, d1, s1, n1);
    Memmove(mem, d2, s2, n2);
  }

  lemma TwoMovesWithin(m: seq<byte>, d1: int, s1: int, n1: nat, d2: int, s2: int, n2: nat, lo: int, hi: int)
    requires 0 <= s1 && s1 + n1 <= |m| && 0 <= s2 && s2 + n2 <= |m|
    requires 0 <= lo <= d1 && d1 + n1 <= hi <= |m| && lo <= d2 && d2 + n2 <= hi
    ensures var m1 := Overwrite(m, d1, m[s1..s1 + n1]);
      Changed(m, Overwrite(m1, d2, m1[s2..s2 + n2]), lo, hi - lo)
  {
    var m1 := Overwrite(m, d1, m[s1..s1 + n1]);
    var m2 := Overwrite(m1, d2, m1[s2..s2 + n2]);
    OverwriteChanges(m, d1, m[s1..s1 + n1], lo, hi - lo);
    OverwriteChanges(m1, d2, m1[s2..s2 + n2], lo, hi - lo);
    ChangedTwice(m, m1, m2, lo, hi - lo);
  }

  /** The blob and the new buffer lie in a memory of n bytes, and there is room. */
  ghost predicate Placed(n: int, h: Header, fdt: int, buf: int, bufsize: int) {
    && 0 <= HeadSize(h) && 0 <= h.sizeStrings && HeadSize(h) + h.sizeStrings <= h.totalsize
    && HeadSize(h) + h.sizeStrings <= bufsize
    && 0 <= fdt && fdt + h.totalsize <= n && 0 <= buf && buf + bufsize <= n
  }

  lemma BothCarried(
    m: seq<byte>, m': seq<byte>, h: Header, fdt: int, buf: int, bufsize: int, oldtail: int, newtail: int)
    requires Placed(|m|, h, fdt, buf, bufsize) && Changed(m, m', buf, bufsize) && |m'| == |m|
    requires oldtail == fdt + h.totalsize - h.sizeStrings && newtail == buf + bufsize - h.sizeStrings
    requires m'[buf..buf + HeadSize(h)] == m[fdt..fdt + HeadSize(h)]
    requires m'[newtail..newtail + h.sizeStrings] == m[oldtail..oldtail + h.sizeStrings]
    ensures Carried(m, m', h, fdt, buf, bufsize)
  {
    assert newtail + h.sizeStrings == buf + bufsize && oldtail + h.sizeStrings == fdt + h.totalsize;
  }

  /** The copies of fdt_resize (lines 168-179). Downwards the head goes first, for
      it ends below the old tail. */
  method CarryDown(mem: array<byte>, fdt: int, h: Header, buf: int, bufsize: int)
    requires Placed(mem.Length, h, fdt, buf, bufsize) && buf <= fdt
    modifies mem
    ensures Carried(old(mem[..]), mem[..], h, fdt, buf, bufsize)
  {
    var head, tail := HeadSize(h), h.sizeStrings;
    var oldtail, newtail := fdt + h.totalsize - tail, buf + bufsize - tail;
    MoveTwo(mem, buf, fdt, head, newtail, oldtail, tail, buf, buf + bufsize);
    BothCarried(old(mem[..]), mem[..], h, fdt, buf, bufsize, oldtail, newtail);
  }

  /** Upwards the tail goes first, for it starts above the old head. */
  method CarryUp(mem: array<byte>, fdt: int, h: Header, buf: int, bufsize: int)
    requires Placed(mem.Length, h, fdt, buf, bufsize) && fdt < buf
    modifies mem
    ensures Carried(old(mem[..]), mem[..], h, fdt, buf, bufsize)
  {
    var head, tail := HeadSize(h), h.sizeStrings;
    var oldtail, newtail := fdt + h.totalsize - tail, buf + bufsize - tail;
    MoveTwo(mem, newtail, oldtail, tail, buf, fdt, head, buf, buf + bufsize);
    BothCarried(old(mem[..]), mem[..], h, fdt, buf, bufsize, oldtail, newtail);
  }

  /** The header with the bytes of its buffer. */
  ghost function BlobAt(h: Header, bytes: seq<byte>): Blob {
    Blob(h.magic, h.totalsize, h.offStruct, h.offStrings, h.sizeStruct, h.sizeStrings, h.flags, bytes)
  }

  /** A tree being written, and the same tree in a buffer of another size: in the
      same state, with the same reservation entries, blocks and flags, and with room
      that differs by as much as the sizes do. */
  ghost predicate Survives(f: Blob, g: Blob) {
    && Fits(f) && Fits(g) && g.magic == f.magic && g.flags == f.flags
    && g.offStruct == f.offStruct && g.sizeStruct == f.sizeStruct && g.sizeStrings == f.sizeStrings
    && (InMemrsv(f) ==> InMemrsv(g)) && (InStruct(f) ==> InStruct(g))
    && g.bytes[..f.offStruct] == f.bytes[..f.offStruct] && StructOf(g) == StructOf(f) && TableOf(g) == TableOf(f)
    && Room(g) == Room(f) + g.totalsize - f.totalsize
  }

  /** The calls that wrote it are the same ones. */
  lemma DraftSurvives(f: Blob, g: Blob, toks: seq<Token>, es: seq<Entry>)
    requires Survives(f, g) && Drafted(f, toks, es)
    ensures Drafted(g, toks, es)
  {
  }

  /** What the copies and the two header fields make of a tree being written. */
  lemma CarriedSurvives(m: seq<byte>, m': seq<byte>, h: Header, h': Header, fdt: int, buf: int, bufsize: int)
    requires Carried(m, m', h, fdt, buf, bufsize) && bufsize <= INT_MAX && 0 <= h.offStruct && 0 <= h.sizeStruct
    requires h' == h.(totalsize := bufsize, offStrings := if h.offStrings != 0 then bufsize else 0)
    requires h.magic == SW_MAGIC && Fits(BlobAt(h, m[fdt..fdt + h.totalsize]))
    ensures Survives(BlobAt(h, m[fdt..fdt + h.totalsize]), BlobAt(h', m'[buf..buf + bufsize]))
  {
    var was, now := m[fdt..fdt + h.totalsize], m'[buf..buf + bufsize];
    HeadCarried(m, m', h, fdt, buf, bufsize);
    SliceOfSlice(m, fdt, h.totalsize, h.totalsize - h.sizeStrings, h.totalsize);
    SliceOfSlice(m', buf, bufsize, bufsize - h.sizeStrings, bufsize);
    assert was[0..h.offStruct] == was[..h.offStruct] && now[0..h.offStruct] == now[..h.offStruct];
  }

  lemma HeadCarried(m: seq<byte>, m': seq<byte>, h: Header, fdt: int, buf: int, bufsize: int)
    requires Carried(m, m', h, fdt, buf, bufsize) && 0 <= h.offStruct && 0 <= h.sizeStruct
    ensures var was, now := m[fdt..fdt + h.totalsize], m'[buf..buf + bufsize];
      now[0..h.offStruct] == was[0..h.offStruct] && now[h.offStruct..HeadSize(h)] == was[h.offStruct..HeadSize(h)]
  {
    SliceOfSlice(m, fdt, h.totalsize, h.offStruct, HeadSize(h));
    SliceOfSlice(m', buf, bufsize, h.offStruct, HeadSize(h));
    SliceOfSlice(m, fdt, h.totalsize, 0, h.offStruct);
    SliceOfSlice(m', buf, bufsize, 0, h.offStruct);
    SubSlice(m', m, buf, fdt, HeadSize(h), h.offStruct, HeadSize(h));
    SubSlice(m', m, buf, fdt, HeadSize(h), 0, h.offStruct);
  }

  /** The memory is one array; fdt and buf are addresses in it. A tree being written
      moves exactly if it fits, and goes on where it was. */
  method Resize(mem: array<byte>, fdt: int, h: Header, buf: int, bufsize: int) returns (r: int, h': Header)
    requires 0 <= h.offStruct && 0 <= h.sizeStruct && 0 <= h.sizeStrings && 0 <= h.totalsize
    requires 0 <= fdt && fdt + h.totalsize <= mem.Length && 0 <= buf && buf + bufsize <= mem.Length
    requires bufsize <= INT_MAX
    modifies mem
    ensures h.magic == FDT_MAGIC ==> r == -ERR_BADSTATE
    ensures h.magic != FDT_MAGIC && h.magic != SW_MAGIC ==> r == -ERR_BADMAGIC
    ensures h.magic == SW_MAGIC && bufsize >= 0 && h.offStruct + h.sizeStruct + h.sizeStrings > h.totalsize ==>
      r == -ERR_INTERNAL
    ensures h.magic == SW_MAGIC && h.offStruct + h.sizeStruct + h.sizeStrings <= h.totalsize ==>
      r == if bufsize >= h.offStruct + h.sizeStruct + h.sizeStrings then 0 else -ERR_NOSPACE
    ensures r != 0 ==> h' == h && mem[..] == old(mem[..])
    ensures r == 0 ==> h'.totalsize == bufsize && Carried(old(mem[..]), mem[..], h, fdt, buf, bufsize)
    ensures r == 0 && Fits(BlobAt(h, old(mem[..])[fdt..fdt + h.totalsize])) ==>
      Survives(BlobAt(h, old(mem[..])[fdt..fdt + h.totalsize]), BlobAt(h', mem[..][buf..buf + bufsize]))
  {
    h' := h;
    if h.magic == FDT_MAGIC {
      return -ERR_BADSTATE, h;
    } else if h.magic != SW_MAGIC {
      return -ERR_BADMAGIC, h;
    }
    if bufsize < 0 {
      return -ERR_NOSPACE, h;
    }
    var headsize, tailsize := h.offStruct + h.sizeStruct, h.sizeStrings;
    if headsize + tailsize > h.totalsize {
      return -ERR_INTERNAL, h;
    }
    if headsize + tailsize > bufsize {
      return -ERR_NOSPACE, h;
    }
    ghost var was := mem[..];
    if buf <= fdt {
      CarryDown(mem, fdt, h, buf, bufsize);
    } else {
      CarryUp(mem, fdt, h, buf, bufsize);
    }
    h' := h'.(totalsize := bufsize);
    if h'.offStrings != 0 {
      h' := h'.(offStrings := bufsize);
    }
    if Fits(BlobAt(h, was[fdt..fdt + h.totalsize])) {
      CarriedSurvives(was, mem[..], h, h', fdt, buf, bufsize);
    }
    r := 0;
  }
}
