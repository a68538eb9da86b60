/** What a writer puts into a tree, call by call, and how it is read back. */
module FdtStream {
  import opened Bytes
  import opened FdtTags
  import opened FdtStrings

  /** One call of the sequential-write interface. */
  datatype Entry = Open(name: seq<byte>) | Property(name: seq<byte>, val: seq<byte>) | Close

  // ------------------------------------------------------------- reading

  datatype Reading = Broken | Read(entries: seq<Entry>)

  /** Walk with fdt_next_tag from o to FDT_END, taking node names from the
      structure block and property names from the strings block. */
  function ReadAll(b: Block, t: seq<byte>, o: int): Reading
    decreases |b| - o
  {
    var (tag, next) := NextTag(b, o);
    if next < 0 then Broken
    else if tag == END then Read([])
    else
      var rest := ReadAll(b, t, next);
      if rest.Broken? then Broken
      else
        match TokenAt(b, o)
        case Begin(name) => Read([Open(name)] + rest.entries)
        case Prop(nameoff, val) =>
          var s := GetString(t, nameoff);
          if s.NoText? then Broken else Read([Property(s.text, val)] + rest.entries)
        case EndNode => Read([Close] + rest.entries)
        case _ => rest
  }

  /** Token and entry say the same; property names are found in the table. */
  ghost predicate Says(t: seq<byte>, tok: Token, e: Entry) {
    match e
    case Open(name) => tok == Begin(name) && NoNul(name)
    case Property(name, val) => tok.Prop? && tok.val == val && Named(t, tok.nameoff, name)
    case Close => tok == EndNode
  }

  ghost predicate AllSay(t: seq<byte>, toks: seq<Token>, es: seq<Entry>) {
    |toks| == |es| && forall i :: 0 <= i < |toks| ==> Says(t, toks[i], es[i])
  }

  lemma TokenIs(b: Block, o: int, tok: Token)
    requires Holds(b, o, tok) && o % 4 == 0 && |b| <= INT_MAX
    ensures NextTag(b, o) == (TagOf(tok), o + Size(tok)) && 0 <= o && o + Size(tok) <= |b|
    ensures TokenAt(b, o) == tok
  {
    NextTagHolds(b, o, tok);
    HoldsBound(b, o, tok);
    TokenHolds(b, o);
    HoldsUnique(b, o, tok, TokenAt(b, o));
  }

  lemma ReadStep(b: Block, t: seq<byte>, o: int, tok: Token, e: Entry, rest: seq<Entry>)
    requires Holds(b, o, tok) && o % 4 == 0 && |b| <= INT_MAX && Says(t, tok, e)
    requires ReadAll(b, t, o + Size(tok)) == Read(rest)
    ensures ReadAll(b, t, o) == Read([e] + rest)
  {
    TokenIs(b, o, tok);
    if e.Property? { GetNamed(t, tok.nameoff, e.name); }
  }

  /** Reading a run of tokens that ends with FDT_END gives the entries. */
  lemma {:induction false} ReadTokens(b: Block, t: seq<byte>, o: int, toks: seq<Token>, es: seq<Entry>)
    requires Laid(b, o, toks + [Fin]) && o % 4 == 0 && |b| <= INT_MAX && AllSay(t, toks, es)
    ensures ReadAll(b, t, o) == Read(es)
    decreases |toks|
  {
    if toks == [] {
      assert toks + [Fin] == [Fin] && es == [];
      LaidOne(b, o, Fin);
      TokenIs(b, o, Fin);
    } else {
      var tok, e := toks[0], es[0];
      assert (toks + [Fin])[0] == tok && (toks + [Fin])[1..] == toks[1..] + [Fin];
      LaidCons(b, o, toks + [Fin]);
      SizeMod(tok);
      ReadTokens(b, t, o + Size(tok), toks[1..], es[1..]);
      assert Says(t, tok, e);
      ReadStep(b, t, o, tok, e, es[1..]);
      assert es == [e] + es[1..];
    }
  }

  // ------------------------------------------------- while being written

  /** In an unfinished tree names are found by their distance from the end of
      the table, stored as a negative 32-bit offset. */
  ghost predicate Drafts(t: seq<byte>, tok: Token, e: Entry) {
    match e
    case Open(name) => tok == Begin(name) && NoNul(name)
    case Property(name, val) => tok.Prop? && tok.val == val && Named(t, |t| - (U32 - tok.nameoff), name)
    && 0 <= tok.nameoff < U32
    case Close => tok == EndNode
  }

  ghost predicate AllDraftBody(t: seq<byte>, toks: seq<Token>, es: seq<Entry>) {
    |toks| == |es| && forall i :: 0 <= i < |toks| ==> Drafts(t, toks[i], es[i])
  }

  ghost predicate FoldedDraft(t: seq<byte>, toks: seq<Token>, es: seq<Entry>, n: nat) {
    if n == 0 then AllDraftBody(t, toks, es) else FoldedDraft(t, toks, es, n - 1)
  }

  /** Folded; see `AllDraftIs`. */
  ghost predicate AllDraft(t: seq<byte>, toks: seq<Token>, es: seq<Entry>) {
    FoldedDraft(t, toks, es, |toks| + 4)
  }

  lemma {:induction false} FoldedDraftIs(t: seq<byte>, toks: seq<Token>, es: seq<Entry>, n: nat)
    ensures FoldedDraft(t, toks, es, n) <==> AllDraftBody(t, toks, es)
  {
    if n > 0 { FoldedDraftIs(t, toks, es, n - 1); }
  }

  lemma AllDraftIs(t: seq<byte>, toks: seq<Token>, es: seq<Entry>)
    ensures AllDraft(t, toks, es) <==> AllDraftBody(t, toks, es)
  {
    FoldedDraftIs(t, toks, es, |toks| + 4);
  }

  /** The token after fdt_finish has added the size of the table to its offset. */
  function Relocated(tok: Token, size: int): Token {
    if tok.Prop? then Prop((tok.nameoff + size) % U32, tok.val) else tok
  }

  function RelocateAll(toks: seq<Token>, size: int): (r: seq<Token>)
    ensures |r| == |toks| && forall i :: 0 <= i < |toks| ==> r[i] == Relocated(toks[i], size)
  {
    if toks == [] then [] else [Relocated(toks[0], size)] + RelocateAll(toks[1..], size)
  }

  lemma DraftRelocates(t: seq<byte>, tok: Token, e: Entry)
    requires Drafts(t, tok, e) && |t| < U32
    ensures Says(t, Relocated(tok, |t|), e)
  {
    if e.Property? {
      var p := |t| - (U32 - tok.nameoff);
      assert tok.nameoff + |t| == p + U32 && 0 <= p < U32;
      assert (p + U32) % U32 == p;
    }
  }

  lemma AllRelocate(t: seq<byte>, toks: seq<Token>, es: seq<Entry>)
    requires AllDraft(t, toks, es) && |t| < U32
    ensures AllSay(t, RelocateAll(toks, |t|), es)
  {
    AllDraftIs(t, toks, es);
    forall i | 0 <= i < |toks|
      ensures Says(t, RelocateAll(toks, |t|)[i], es[i])
    {
      assert Drafts(t, toks[i], es[i]);
      DraftRelocates(t, toks[i], es[i]);
    }
  }

  /** Drafts survive when strings are put in front of the table. */
  lemma DraftsPrepend(front: seq<byte>, t: seq<byte>, toks: seq<Token>, es: seq<Entry>)
    requires AllDraft(t, toks, es)
    ensures AllDraft(front + t, toks, es)
  {
    AllDraftIs(t, toks, es);
    AllDraftIs(front + t, toks, es);
    forall i | 0 <= i < |toks|
      ensures Drafts(front + t, toks[i], es[i])
    {
      assert Drafts(t, toks[i], es[i]);
      if es[i].Property? {
        NamedPrepend(front, t, |t| - (U32 - toks[i].nameoff), es[i].name);
      }
    }
  }

  lemma DraftsMore(t: seq<byte>, toks: seq<Token>, es: seq<Entry>, tok: Token, e: Entry)
    requires AllDraft(t, toks, es) && Drafts(t, tok, e)
    ensures AllDraft(t, toks + [tok], es + [e])
  {
    AllDraftIs(t, toks, es);
    AllDraftIs(t, toks + [tok], es + [e]);
  }

  /** One more token at the end of the block. */
  lemma LaidMore(b: Block, c: Block, toks: seq<Token>, tok: Token)
    requires Laid(b, 0, toks) && SizeAll(toks) == |b| <= |c| && c[..|b|] == b && Holds(c, |b|, tok)
    ensures Laid(c, 0, toks + [tok])
    ensures SizeAll(toks + [tok]) == |b| + Size(tok)
  {
    assert b[0..|b|] == c[0..|b|];
    LaidMoved(b, c, 0, 0, toks);
    LaidOne(c, |b|, tok);
    LaidAppend(c, 0, toks, [tok]);
    SizeAppend(toks, [tok]);
    assert SizeAll([tok]) == Size(tok);
  }

  ghost predicate WrittenBody(b: Block, t: seq<byte>, toks: seq<Token>, es: seq<Entry>) {
    Laid(b, 0, toks) && SizeAll(toks) == |b| && AllDraft(t, toks, es)
  }

  ghost predicate FoldedWritten(b: Block, t: seq<byte>, toks: seq<Token>, es: seq<Entry>, n: nat) {
    if n == 0 then WrittenBody(b, t, toks, es) else FoldedWritten(b, t, toks, es, n - 1)
  }

  /** The structure block b is the tokens toks, which together with the strings
      t say what the calls es wrote. Folded; see `WrittenIs`. */
  ghost predicate Written(b: Block, t: seq<byte>, toks: seq<Token>, es: seq<Entry>) {
    FoldedWritten(b, t, toks, es, |b| + 4)
  }

  lemma {:induction false} FoldedWrittenIs(b: Block, t: seq<byte>, toks: seq<Token>, es: seq<Entry>, n: nat)
    ensures FoldedWritten(b, t, toks, es, n) <==> WrittenBody(b, t, toks, es)
  {
    if n > 0 { FoldedWrittenIs(b, t, toks, es, n - 1); }
  }

  lemma WrittenIs(b: Block, t: seq<byte>, toks: seq<Token>, es: seq<Entry>)
    ensures Written(b, t, toks, es) <==> WrittenBody(b, t, toks, es)
  {
    FoldedWrittenIs(b, t, toks, es, |b| + 4);
  }

  lemma WrittenNil(t: seq<byte>)
    ensures Written([], t, [], [])
  {
    LaidNil([], 0);
    AllDraftIs(t, [], []);
    WrittenIs([], t, [], []);
  }

  /** One more token and one more call. */
  lemma WrittenMore(b: Block, c: Block, t: seq<byte>, toks: seq<Token>, es: seq<Entry>, tok: Token, e: Entry)
    requires Written(b, t, toks, es) && |c| == |b| + Size(tok) && c[..|b|] == b && Holds(c, |b|, tok)
    requires Drafts(t, tok, e)
    ensures Written(c, t, toks + [tok], es + [e])
  {
    WrittenIs(b, t, toks, es);
    LaidMore(b, c, toks, tok);
    DraftsMore(t, toks, es, tok, e);
    WrittenIs(c, t, toks + [tok], es + [e]);
  }

  /** A string in front of the table changes nothing that was said. */
  lemma WrittenPrepend(b: Block, front: seq<byte>, t: seq<byte>, toks: seq<Token>, es: seq<Entry>)
    requires Written(b, t, toks, es)
    ensures Written(b, front + t, toks, es)
  {
    WrittenIs(b, t, toks, es);
    DraftsPrepend(front, t, toks, es);
    WrittenIs(b, front + t, toks, es);
  }

  // ---------------------------------------------------------- relocation

  lemma LaidSplit(b: Block, a: seq<Token>, tok: Token, c: seq<Token>)
    ensures Laid(b, 0, a + [tok] + c)
      <==> Laid(b, 0, a) && Holds(b, SizeAll(a), tok) && Laid(b, SizeAll(a) + Size(tok), c)
  {
    assert a + [tok] + c == a + ([tok] + c);
    LaidAppend(b, 0, a, [tok] + c);
    assert ([tok] + c)[0] == tok && ([tok] + c)[1..] == c;
    LaidCons(b, SizeAll(a), [tok] + c);
  }

  /** One token of a run is replaced by another of the same size. */
  lemma LaidPatch(b: Block, b': Block, a: seq<Token>, tok: Token, tok': Token, c: seq<Token>)
    requires Laid(b, 0, a + [tok] + c) && Size(tok') == Size(tok) && |b'| == |b|
    requires Holds(b', SizeAll(a), tok') && SizeAll(a) + Size(tok) <= |b|
    requires b'[..SizeAll(a)] == b[..SizeAll(a)] && b'[SizeAll(a) + Size(tok)..] == b[SizeAll(a) + Size(tok)..]
    ensures Laid(b', 0, a + [tok'] + c)
  {
    var o, end := SizeAll(a), SizeAll(a) + Size(tok);
    LaidSplit(b, a, tok, c);
    LaidSplit(b', a, tok', c);
    assert b[0..o] == b'[0..o];
    LaidMoved(b, b', 0, 0, a);
    if c != [] {
      LaidBound(b, end, c);
      SubSlice(b, b', end, end, |b| - end, 0, SizeAll(c));
      LaidMoved(b, b', end, end, c);
    } else {
      LaidNil(b', end);
    }
  }

  /** Rewriting the name offset of one property. */
  lemma SetNameoff(b: Block, a: seq<Token>, tok: Token, c: seq<Token>, n: int)
    requires tok.Prop? && Laid(b, 0, a + [tok] + c) && 0 <= n < U32
    ensures SizeAll(a) + 12 <= |b|
    ensures Laid(Overwrite(b, SizeAll(a) + 8, Word(n)), 0, a + [Prop(n, tok.val)] + c)
  {
    var o := SizeAll(a);
    LaidSplit(b, a, tok, c);
    HoldsBound(b, o, tok);
    AlignUp(|tok.val|);
    SetOne(b, o, tok, n);
    var b' := Overwrite(b, o + 8, Word(n));
    OverwriteOutside(b, o + 8, Word(n), 0, o);
    OverwriteOutside(b, o + 8, Word(n), o + Size(tok), |b|);
    LaidPatch(b, b', a, tok, Prop(n, tok.val), c);
  }

  lemma SetOne(b: Block, o: int, tok: Token, n: int)
    requires Holds(b, o, tok) && tok.Prop? && 0 <= n < U32 && 0 <= o && o + Size(tok) <= |b|
    ensures Holds(Overwrite(b, o + 8, Word(n)), o, Prop(n, tok.val))
  {
    var b' := Overwrite(b, o + 8, Word(n));
    HoldsIs(b, o, tok);
    AlignUp(|tok.val|);
    OverwriteOutside(b, o + 8, Word(n), o, o + 4);
    SameWord(b, b', o, o);
    OverwriteOutside(b, o + 8, Word(n), o + 4, o + 8);
    SameWord(b, b', o + 4, o + 4);
    OverwriteInside(b, o + 8, Word(n));
    WordReads(n);
    SameWord(b', Word(n), o + 8, 0);
    OverwriteOutside(b, o + 8, Word(n), o + 12, o + 12 + |tok.val|);
    HoldsIs(b', o, Prop(n, tok.val));
  }

  ghost predicate NoFin(ts: seq<Token>) {
    forall i :: 0 <= i < |ts| ==> !ts[i].Fin?
  }

  lemma DraftsNoFin(t: seq<byte>, ts: seq<Token>, es: seq<Entry>)
    requires AllDraft(t, ts, es)
    ensures NoFin(ts)
  {
    AllDraftIs(t, ts, es);
    forall i | 0 <= i < |ts|
      ensures !ts[i].Fin?
    {
      assert Drafts(t, ts[i], es[i]);
    }
  }

  /** The run when i tokens have been relocated. */
  ghost function Mixed(ts: seq<Token>, i: int, size: int): seq<Token>
    requires 0 <= i <= |ts|
  {
    RelocateAll(ts[..i], size) + ts[i..] + [Fin]
  }

  lemma MixedSplit(ts: seq<Token>, i: int, size: int)
    requires 0 <= i < |ts|
    ensures var a, c := RelocateAll(ts[..i], size), ts[i + 1..] + [Fin];
      Mixed(ts, i, size) == a + [ts[i]] + c && Mixed(ts, i + 1, size) == a + [Relocated(ts[i], size)] + c
    ensures SizeAll(RelocateAll(ts[..i + 1], size)) == SizeAll(RelocateAll(ts[..i], size)) + Size(ts[i])
  {
    var a, u := RelocateAll(ts[..i], size), Relocated(ts[i], size);
    assert RelocateAll(ts[..i + 1], size) == a + [u];
    SizeAppend(a, [u]);
    assert SizeAll([u]) == Size(u) == Size(ts[i]);
    FirstOf(ts, i);
  }

  lemma FirstOf(ts: seq<Token>, i: int)
    requires 0 <= i < |ts|
    ensures ts[i..] == [ts[i]] + ts[i + 1..]
  {
  }

  lemma MixedEnds(ts: seq<Token>, size: int)
    ensures Mixed(ts, 0, size) == ts + [Fin] && Mixed(ts, |ts|, size) == RelocateAll(ts, size) + [Fin]
  {
    assert ts[..0] == [] && ts[0..] == ts && ts[..|ts|] == ts && ts[|ts|..] == [];
    assert RelocateAll(ts[..0], size) == [];
  }

  /** Where the walker stands after i tokens. */
  lemma MixedAt(b: Block, ts: seq<Token>, i: int, size: int)
    requires 0 <= i < |ts| && Laid(b, 0, Mixed(ts, i, size)) && |b| <= INT_MAX
    ensures var o := SizeAll(RelocateAll(ts[..i], size));
      Holds(b, o, ts[i]) && NextTag(b, o) == (TagOf(ts[i]), o + Size(ts[i]))
  {
    var a := RelocateAll(ts[..i], size);
    MixedSplit(ts, i, size);
    LaidSplit(b, a, ts[i], ts[i + 1..] + [Fin]);
    SizeAllMod(a);
    NextTagHolds(b, SizeAll(a), ts[i]);
  }

  lemma MixedAtEnd(b: Block, ts: seq<Token>, size: int)
    requires Laid(b, 0, Mixed(ts, |ts|, size)) && |b| <= INT_MAX
    ensures NextTag(b, SizeAll(RelocateAll(ts[..|ts|], size))) == (END, SizeAll(RelocateAll(ts[..|ts|], size)) + 4)
  {
    var a := RelocateAll(ts, size);
    MixedEnds(ts, size);
    LaidAppend(b, 0, a, [Fin]);
    LaidOne(b, SizeAll(a), Fin);
    SizeAllMod(a);
    NextTagHolds(b, SizeAll(a), Fin);
    assert ts[..|ts|] == ts;
  }

  /** Rewriting the name offset of token i. */
  lemma MixedPatch(b: Block, ts: seq<Token>, i: int, size: int)
    requires 0 <= i < |ts| && ts[i].Prop? && Laid(b, 0, Mixed(ts, i, size))
    ensures var o := SizeAll(RelocateAll(ts[..i], size));
      && 0 <= o && o + 12 <= |b|
      && Laid(Overwrite(b, o + 8, Word((Get32(b, o + 8) + size) % U32)), 0, Mixed(ts, i + 1, size))
  {
    var a, c := RelocateAll(ts[..i], size), ts[i + 1..] + [Fin];
    MixedSplit(ts, i, size);
    LaidSplit(b, a, ts[i], c);
    HoldsIs(b, SizeAll(a), ts[i]);
    SetNameoff(b, a, ts[i], c, (ts[i].nameoff + size) % U32);
  }

  ghost predicate ReachedBody(b: Block, ts: seq<Token>, i: int, size: int, o: int) {
    && 0 <= i <= |ts| && |b| <= INT_MAX && NoFin(ts)
    && Laid(b, 0, Mixed(ts, i, size)) && o == SizeAll(RelocateAll(ts[..i], size))
  }

  ghost predicate FoldedReached(b: Block, ts: seq<Token>, i: int, size: int, o: int, n: nat) {
    if n == 0 then ReachedBody(b, ts, i, size, o) else FoldedReached(b, ts, i, size, o, n - 1)
  }

  /** The loop of fdt_finish has relocated i tokens and stands at o. Folded; see
      `ReachedIs`. */
  ghost predicate Reached(b: Block, ts: seq<Token>, i: int, size: int, o: int) {
    FoldedReached(b, ts, i, size, o, |b| + 4)
  }

  lemma {:induction false} FoldedReachedIs(b: Block, ts: seq<Token>, i: int, size: int, o: int, n: nat)
    ensures FoldedReached(b, ts, i, size, o, n) <==> ReachedBody(b, ts, i, size, o)
  {
    if n > 0 { FoldedReachedIs(b, ts, i, size, o, n - 1); }
  }

  lemma ReachedIs(b: Block, ts: seq<Token>, i: int, size: int, o: int)
    ensures Reached(b, ts, i, size, o) <==> ReachedBody(b, ts, i, size, o)
  {
    FoldedReachedIs(b, ts, i, size, o, |b| + 4);
  }

  lemma ReachedStart(b: Block, ts: seq<Token>, size: int)
    requires Laid(b, 0, ts + [Fin]) && NoFin(ts) && |b| <= INT_MAX
    ensures Reached(b, ts, 0, size, 0)
  {
    MixedEnds(ts, size);
    assert ts[..0] == [];
    ReachedIs(b, ts, 0, size, 0);
  }

  lemma ReachedEnd(b: Block, ts: seq<Token>, size: int, o: int)
    requires Reached(b, ts, |ts|, size, o)
    ensures Laid(b, 0, RelocateAll(ts, size) + [Fin])
  {
    ReachedIs(b, ts, |ts|, size, o);
    MixedEnds(ts, size);
  }

  /** What fdt_next_tag finds there. */
  lemma ReachedTag(b: Block, ts: seq<Token>, i: int, size: int, o: int)
    requires Reached(b, ts, i, size, o) && 0 <= i <= |ts|
    ensures NextTag(b, o) == if i < |ts| then (TagOf(ts[i]), o + Size(ts[i])) else (END, o + 4)
    ensures 0 <= o && (i < |ts| ==> TagOf(ts[i]) != END)
  {
    ReachedIs(b, ts, i, size, o);
    if i < |ts| {
      MixedAt(b, ts, i, size);
    } else {
      MixedAtEnd(b, ts, size);
    }
  }

  lemma ReachedProp(b: Block, ts: seq<Token>, i: int, size: int, o: int)
    requires 0 <= i < |ts| && Reached(b, ts, i, size, o) && ts[i].Prop?
    ensures 0 <= o && o + 12 <= |b|
    ensures Reached(Overwrite(b, o + 8, Word((Get32(b, o + 8) + size) % U32)), ts, i + 1, size, o + Size(ts[i]))
  {
    ReachedIs(b, ts, i, size, o);
    MixedPatch(b, ts, i, size);
    MixedSplit(ts, i, size);
    ReachedIs(Overwrite(b, o + 8, Word((Get32(b, o + 8) + size) % U32)), ts, i + 1, size, o + Size(ts[i]));
  }

  lemma ReachedOther(b: Block, ts: seq<Token>, i: int, size: int, o: int)
    requires 0 <= i < |ts| && Reached(b, ts, i, size, o) && !ts[i].Prop?
    ensures Reached(b, ts, i + 1, size, o + Size(ts[i]))
  {
    ReachedIs(b, ts, i, size, o);
    MixedSplit(ts, i, size);
    ReachedIs(b, ts, i + 1, size, o + Size(ts[i]));
  }

  ghost predicate SealedBody(b: Block, t: seq<byte>, toks: seq<Token>, es: seq<Entry>) {
    |b| <= INT_MAX && |t| < U32 && Laid(b, 0, toks + [Fin]) && NoFin(toks) && AllDraft(t, toks, es)
  }

  ghost predicate FoldedSealed(b: Block, t: seq<byte>, toks: seq<Token>, es: seq<Entry>, n: nat) {
    if n == 0 then SealedBody(b, t, toks, es) else FoldedSealed(b, t, toks, es, n - 1)
  }

  /** The block ends with FDT_END; names are still found from the end of the
      table. Folded; see `SealedIs`. */
  ghost predicate Sealed(b: Block, t: seq<byte>, toks: seq<Token>, es: seq<Entry>) {
    FoldedSealed(b, t, toks, es, |b| + 4)
  }

  lemma {:induction false} FoldedSealedIs(b: Block, t: seq<byte>, toks: seq<Token>, es: seq<Entry>, n: nat)
    ensures FoldedSealed(b, t, toks, es, n) <==> SealedBody(b, t, toks, es)
  {
    if n > 0 { FoldedSealedIs(b, t, toks, es, n - 1); }
  }

  lemma SealedIs(b: Block, t: seq<byte>, toks: seq<Token>, es: seq<Entry>)
    ensures Sealed(b, t, toks, es) <==> SealedBody(b, t, toks, es)
  {
    FoldedSealedIs(b, t, toks, es, |b| + 4);
  }

  ghost predicate FoldedReads(b: Block, t: seq<byte>, es: seq<Entry>, n: nat) {
    if n == 0 then ReadAll(b, t, 0) == Read(es) else FoldedReads(b, t, es, n - 1)
  }

  /** Walking the finished blocks gives the calls back. Folded; see `ReadsIs`. */
  ghost predicate Reads(b: Block, t: seq<byte>, es: seq<Entry>) {
    FoldedReads(b, t, es, |b| + 4)
  }

  lemma {:induction false} FoldedReadsIs(b: Block, t: seq<byte>, es: seq<Entry>, n: nat)
    ensures FoldedReads(b, t, es, n) <==> ReadAll(b, t, 0) == Read(es)
  {
    if n > 0 { FoldedReadsIs(b, t, es, n - 1); }
  }

  lemma ReadsIs(b: Block, t: seq<byte>, es: seq<Entry>)
    ensures Reads(b, t, es) <==> ReadAll(b, t, 0) == Read(es)
  {
    FoldedReadsIs(b, t, es, |b| + 4);
  }

  /** What is read back once the name offsets are relocated. */
  lemma ReadBack(b: Block, c: Block, t: seq<byte>, toks: seq<Token>, es: seq<Entry>)
    requires Sealed(b, t, toks, es) && |c| == |b| && Laid(c, 0, RelocateAll(toks, |t|) + [Fin])
    ensures Reads(c, t, es)
  {
    ReadsIs(c, t, es);
    SealedIs(b, t, toks, es);
    AllRelocate(t, toks, es);
    ReadTokens(c, t, 0, RelocateAll(toks, |t|), es);
  }

  // ------------------------------------------------------------- trees

  /** A device tree: a node with its properties and its children, in order. */
  datatype Tree = Node(name: seq<byte>, props: seq<(seq<byte>, seq<byte>)>, children: seq<Tree>)

  /** The calls that write a tree: begin, the properties, the children, end. */
  function Flatten(t: Tree): (es: seq<Entry>)
    decreases t, 1
  {
    [Open(t.name)] + FlattenProps(t.props) + FlattenAll(t.children) + [Close]
  }

  function FlattenProps(ps: seq<(seq<byte>, seq<byte>)>): seq<Entry> {
    if ps == [] then [] else [Property(ps[0].0, ps[0].1)] + FlattenProps(ps[1..])
  }

  function FlattenAll(ts: seq<Tree>): seq<Entry>
    decreases ts, 0
  {
    if ts == [] then [] else Flatten(ts[0]) + FlattenAll(ts[1..])
  }

  /** Rebuilding: the nodes at the front of es, up to a Close, and what is left. */
  datatype Forest = NoForest | Forest(trees: seq<Tree>, rest: seq<Entry>)

  function TakeProps(es: seq<Entry>): (r: (seq<(seq<byte>, seq<byte>)>, seq<Entry>))
    ensures |r.1| <= |es|
  {
    if es != [] && es[0].Property? then
      var (ps, rest) := TakeProps(es[1..]);
      ([(es[0].name, es[0].val)] + ps, rest)
    else ([], es)
  }

  function Rebuild(es: seq<Entry>): (r: Forest)
    ensures r.Forest? ==> |r.rest| <= |es|
    decreases |es|
  {
    if es == [] || !es[0].Open? then Forest([], es)
    else
      var (ps, body) := TakeProps(es[1..]);
      var inner := Rebuild(body);
      if inner.NoForest? || inner.rest == [] || !inner.rest[0].Close? then NoForest
      else
        var more := Rebuild(inner.rest[1..]);
        if more.NoForest? then NoForest
        else Forest([Node(es[0].name, ps, inner.trees)] + more.trees, more.rest)
  }

  lemma TakeCons(name: seq<byte>, val: seq<byte>, es: seq<Entry>)
    ensures TakeProps([Property(name, val)] + es) == ([(name, val)] + TakeProps(es).0, TakeProps(es).1)
  {
    assert ([Property(name, val)] + es)[1..] == es;
  }

  lemma {:induction false} TakeFlattenProps(ps: seq<(seq<byte>, seq<byte>)>, rest: seq<Entry>)
    requires rest == [] || !rest[0].Property?
    ensures TakeProps(FlattenProps(ps) + rest) == (ps, rest)
  {
    if ps == [] {
      assert FlattenProps(ps) + rest == rest;
    } else {
      assert FlattenProps(ps) + rest == [Property(ps[0].0, ps[0].1)] + (FlattenProps(ps[1..]) + rest);
      TakeCons(ps[0].0, ps[0].1, FlattenProps(ps[1..]) + rest);
      TakeFlattenProps(ps[1..], rest);
      assert ps == [(ps[0].0, ps[0].1)] + ps[1..];
    }
  }

  lemma FlattenShape(ts: seq<Tree>, rest: seq<Entry>)
    requires ts != []
    ensures var t := ts[0];
      FlattenAll(ts) + rest
        == [Open(t.name)]
        + (FlattenProps(t.props) + (FlattenAll(t.children) + ([Close] + (FlattenAll(ts[1..]) + rest))))
  {
  }

  /** What was flattened is rebuilt, for every list of trees and whatever
      follows, as long as that does not open a node. */
  lemma {:induction false} RebuildFlatten(ts: seq<Tree>, rest: seq<Entry>)
    requires rest == [] || rest[0].Close?
    ensures Rebuild(FlattenAll(ts) + rest) == Forest(ts, rest)
    decreases ts
  {
    if ts == [] {
      assert FlattenAll(ts) + rest == rest;
    } else {
      var t := ts[0];
      var after := FlattenAll(ts[1..]) + rest;
      var body := FlattenAll(t.children) + ([Close] + after);
      FlattenShape(ts, rest);
      var es := FlattenAll(ts) + rest;
      assert es[0] == Open(t.name) && es[1..] == FlattenProps(t.props) + body;
      FirstNotProperty(t.children, [Close] + after);
      TakeFlattenProps(t.props, body);
      RebuildFlatten(t.children, [Close] + after);
      assert ([Close] + after)[1..] == after;
      RebuildFlatten(ts[1..], rest);
      assert t == Node(t.name, t.props, t.children);
      assert ts == [t] + ts[1..];
    }
  }

  lemma FirstNotProperty(ts: seq<Tree>, rest: seq<Entry>)
    requires rest != [] && !rest[0].Property?
    ensures var es := FlattenAll(ts) + rest; es != [] && !es[0].Property?
  {
    if ts == [] {
      assert FlattenAll(ts) + rest == rest;
    }
  }
}
