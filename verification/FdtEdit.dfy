/** Editing runs of tokens: what the edited block reads as. */
module FdtEdit {
  import opened Bytes
  import opened FdtTags
  import opened FdtStrings
  import opened FdtStream
  import opened FdtWalk

  // -------------------------------------------------------- reading tokens

  /** What ReadAll makes of tokens; FDT_NOP is skipped. */
  ghost function ReadToks(s: seq<byte>, toks: seq<Token>): Reading {
    if toks == [] then Read([]) else Join(ReadOne(s, toks[0]), ReadToks(s, toks[1..]))
  }

  ghost function ReadOne(s: seq<byte>, t: Token): Reading {
    match t
    case Begin(name) => Read([Open(name)])
    case Prop(nameoff, val) => var x := GetString(s, nameoff);
      if x.NoText? then Broken else Read([Property(x.text, val)])
    case EndNode => Read([Close])
    case Nop => Read([])
    case Fin => Read([])
  }

  ghost function Join(x: Reading, y: Reading): Reading {
    if x.Broken? || y.Broken? then Broken else Read(x.entries + y.entries)
  }

  lemma {:induction false} ReadFrom(b: Block, s: seq<byte>, toks: seq<Token>, i: int)
    requires Run(b, toks) && 0 <= i <= |toks|
    ensures ReadAll(b, s, Off(toks, i)) == ReadToks(s, toks[i..])
    decreases |toks| - i
  {
    if i == |toks| {
      RunAtEnd(b, toks);
    } else {
      RunAt(b, toks, i);
      ReadFrom(b, s, toks, i + 1);
      assert toks[i..][0] == toks[i] && toks[i..][1..] == toks[i + 1..];
    }
  }

  /** Walking a block gives what its tokens read as. */
  lemma RunReads(b: Block, s: seq<byte>, toks: seq<Token>)
    requires Run(b, toks)
    ensures ReadAll(b, s, 0) == ReadToks(s, toks)
  {
    ReadFrom(b, s, toks, 0);
    assert toks[..0] == [] && toks[0..] == toks;
  }

  lemma JoinAssoc(x: Reading, y: Reading, z: Reading)
    ensures Join(Join(x, y), z) == Join(x, Join(y, z))
  {
  }

  lemma {:induction false} ReadAppend(s: seq<byte>, a: seq<Token>, c: seq<Token>)
    ensures ReadToks(s, a + c) == Join(ReadToks(s, a), ReadToks(s, c))
  {
    if a == [] {
      assert a + c == c;
    } else {
      assert (a + c)[0] == a[0] && (a + c)[1..] == a[1..] + c;
      ReadAppend(s, a[1..], c);
      JoinAssoc(ReadOne(s, a[0]), ReadToks(s, a[1..]), ReadToks(s, c));
    }
  }

  // --------------------------------------------------------------- splicing

  /** The tokens x between a and c give way to y. */
  lemma SpliceRun(b: Block, b': Block, a: seq<Token>, x: seq<Token>, y: seq<Token>, c: seq<Token>, n: Block)
    requires Run(b, a + x + c) && Laid(n, 0, y) && SizeAll(y) == |n| && NoFin(y)
    requires SizeAll(a) + SizeAll(x) <= |b| && b' == b[..SizeAll(a)] + n + b[SizeAll(a) + SizeAll(x)..]
    requires |b'| <= INT_MAX
    ensures Run(b', a + y + c)
  {
    assert a + x + (c + [Fin]) == a + x + c + [Fin] && a + y + (c + [Fin]) == a + y + c + [Fin];
    SpliceLaid(b, b', a, x, y, c + [Fin], n);
    SpliceNoFin(a, x, y, c);
  }

  lemma SpliceNoFin(a: seq<Token>, x: seq<Token>, y: seq<Token>, c: seq<Token>)
    requires NoFin(a + x + c) && NoFin(y)
    ensures NoFin(a + y + c)
  {
    var l, r := a + x + c, a + y + c;
    forall i | 0 <= i < |r|
      ensures !r[i].Fin?
    {
      if i < |a| {
        assert r[i] == l[i];
      } else if i >= |a| + |y| {
        assert r[i] == l[i - |y| + |x|];
      }
    }
  }

  lemma LaidThree(b: Block, a: seq<Token>, x: seq<Token>, d: seq<Token>)
    ensures Laid(b, 0, a + x + d) <==>
            Laid(b, 0, a) && Laid(b, SizeAll(a), x) && Laid(b, SizeAll(a) + SizeAll(x), d)
  {
    LaidAppend(b, 0, a + x, d);
    LaidAppend(b, 0, a, x);
    SizeAppend(a, x);
  }

  lemma SpliceLaid(b: Block, b': Block, a: seq<Token>, x: seq<Token>, y: seq<Token>, d: seq<Token>, n: Block)
    requires Laid(b, 0, a + x + d) && Laid(n, 0, y) && SizeAll(y) == |n| && d != []
    requires SizeAll(a) + SizeAll(x) <= |b| && b' == b[..SizeAll(a)] + n + b[SizeAll(a) + SizeAll(x)..]
    ensures Laid(b', 0, a + y + d)
  {
    var o, e, k := SizeAll(a), SizeAll(a) + SizeAll(x), SizeAll(d);
    LaidThree(b, a, x, d);
    LaidThree(b', a, y, d);
    LaidBound(b, e, d);
    SpliceSlices(b, b', o, e, n, k);
    LaidMoved(b, b', 0, 0, a);
    LaidMoved(n, b', 0, o, y);
    LaidMoved(b, b', e, o + |n|, d);
  }

  lemma SpliceSlices(b: Block, b': Block, o: int, e: int, n: Block, k: int)
    requires 0 <= o <= e && 0 <= k && e + k <= |b| && b' == b[..o] + n + b[e..]
    ensures b[0..o] == b'[0..o] && n[0..|n|] == b'[o..o + |n|] && b[e..e + k] == b'[o + |n|..o + |n| + k]
  {
  }

  // -------------------------------------------------------- ends of nodes

  /** The index behind the FDT_END_NODE that closes the d-th open node from
      token i on, -1 if there is none. */
  function EndFrom(toks: seq<Token>, i: int, d: int): (e: int)
    requires 0 <= i <= |toks|
    ensures e == -1 || i < e <= |toks|
    decreases |toks| - i
  {
    if i == |toks| then -1
    else if toks[i].EndNode? && d == 1 then i + 1
    else EndFrom(toks, i + 1, d + Delta(toks[i]))
  }

  lemma {:induction false} ScanEnds(toks: seq<Token>, i: int, d: int)
    requires 0 <= i <= |toks| && d >= 0
    ensures var s := Scan(toks, i, d);
      && (s.NoMore? ==> EndFrom(toks, i, d + 1) == -1)
      && (s.LeftAt? ==> EndFrom(toks, i, d + 1) == s.index && s.depth < 0)
      && (s.AtNode? ==> EndFrom(toks, i, d + 1) == EndFrom(toks, s.index + 1, s.depth + 1) && s.depth >= 0)
    decreases |toks| - i
  {
    if i < |toks| {
      if toks[i].EndNode? {
        if d > 0 { ScanEnds(toks, i + 1, d - 1); }
      } else if !toks[i].Begin? {
        ScanEnds(toks, i + 1, d);
      }
    }
  }

  /** fdt_node_end_offset_ (lib/libfdt/fdt_wip.c:73-81) from an offset and depth. */
  function NodeEnd(b: Block, offset: int, depth: int): int
    decreases |b| - offset
  {
    if offset < 0 || depth < 0 then offset
    else
      var (o, d) := NextNode(b, offset, depth);
      if o < 0 then o else NodeEnd(b, o, d)
  }

  method FdtNodeEnd(b: Block, start: int) returns (offset: int)
    requires |b| < U32
    ensures offset == NodeEnd(b, start, 0)
  {
    offset := start;
    var depth := 0;
    while offset >= 0 && depth >= 0
      invariant NodeEnd(b, start, 0) == NodeEnd(b, offset, depth)
      decreases if offset < 0 then 0 else if offset > |b| then 1 else 2 + |b| - offset
    {
      offset, depth := FdtNextNode(b, offset, depth);
    }
  }

  function EndOffset(toks: seq<Token>, e: int): int
    requires -1 <= e <= |toks|
  {
    if e < 0 then -ERR_NOTFOUND else Off(toks, e)
  }

  lemma NodeEndStep(b: Block, offset: int, d: int, o: int, e: int)
    requires offset >= 0 && d >= 0 && NextNode(b, offset, d) == (o, e)
    ensures NodeEnd(b, offset, d) == if o < 0 || e < 0 then o else NodeEnd(b, o, e)
  {
  }

  /** One step of the loop, on tokens. */
  lemma NodeEndAt(b: Block, toks: seq<Token>, i: int, d: int)
    requires Run(b, toks) && 0 <= i < |toks| && toks[i].Begin? && d >= 0
    ensures var s := Scan(toks, i + 1, d);
      NodeEnd(b, Off(toks, i), d) == if s.AtNode? && s.depth >= 0 then NodeEnd(b, Off(toks, s.index), s.depth)
        else StopOffset(toks, s)
  {
    var s := Scan(toks, i + 1, d);
    NextNodeScans(b, toks, i, d);
    NodeEndStep(b, Off(toks, i), d, StopOffset(toks, s), s.depth);
    ScanEnds(toks, i + 1, d);
  }

  /** It finds the end of the node. */
  lemma {:induction false} NodeEndFound(b: Block, toks: seq<Token>, i: int, d: int)
    requires Run(b, toks) && 0 <= i < |toks| && toks[i].Begin? && d >= 0
    ensures NodeEnd(b, Off(toks, i), d) == EndOffset(toks, EndFrom(toks, i + 1, d + 1))
    decreases |toks| - i
  {
    var s := Scan(toks, i + 1, d);
    NodeEndAt(b, toks, i, d);
    ScanEnds(toks, i + 1, d);
    if s.AtNode? {
      NodeEndFound(b, toks, s.index, s.depth);
    }
  }

  // ------------------------------------------------------ segments of a run

  lemma OffSlice(toks: seq<Token>, i: int, e: int)
    requires 0 <= i <= e <= |toks|
    ensures SizeAll(toks[i..e]) == Off(toks, e) - Off(toks, i) && (Off(toks, e) - Off(toks, i)) % 4 == 0
    ensures toks == toks[..i] + toks[i..e] + toks[e..]
  {
    assert toks[..e] == toks[..i] + toks[i..e];
    SizeAppend(toks[..i], toks[i..e]);
    SizeAllMod(toks[i..e]);
  }

  lemma RunBound(b: Block, toks: seq<Token>, i: int)
    requires Run(b, toks) && 0 <= i <= |toks|
    ensures Off(toks, i) + 4 <= |b| <= INT_MAX
  {
    LaidBound(b, 0, toks + [Fin]);
    SizeAppend(toks, [Fin]);
    assert toks[..|toks|] == toks && SizeAll([Fin]) == 4;
    OffGrows(toks, i, |toks|);
  }

  /** The tokens from i up to e give way to y. */
  lemma ReplaceRun(b: Block, b': Block, toks: seq<Token>, i: int, e: int, y: seq<Token>, n: Block)
    requires Run(b, toks) && 0 <= i <= e <= |toks| && Laid(n, 0, y) && SizeAll(y) == |n| && NoFin(y)
    requires Off(toks, e) <= |b| && Off(toks, i) <= Off(toks, e) && b' == b[..Off(toks, i)] + n + b[Off(toks, e)..]
    requires |b'| <= INT_MAX
    ensures Run(b', toks[..i] + y + toks[e..])
  {
    OffSlice(toks, i, e);
    SpliceRun(b, b', toks[..i], toks[i..e], y, toks[e..], n);
  }

  lemma ReadThree(s: seq<byte>, a: seq<Token>, x: seq<Token>, c: seq<Token>)
    ensures ReadToks(s, a + x + c) == Join(Join(ReadToks(s, a), ReadToks(s, x)), ReadToks(s, c))
  {
    ReadAppend(s, a + x, c);
    ReadAppend(s, a, x);
  }
}
