/** Walking a structure block: fdt_next_node and the loop of fdt_check_full
    (lib/libfdt/fdt.c, lib/libfdt/fdt_check.c). */
module FdtWalk {
  import opened Bytes
  import opened FdtTags
  import opened FdtStrings
  import opened FdtStream

  // -------------------------------------------------- whole blocks of tokens

  /** The block holds the tokens toks and then FDT_END. */
  ghost predicate Run(b: Block, toks: seq<Token>) {
    Laid(b, 0, toks + [Fin]) && NoFin(toks) && |b| <= INT_MAX
  }

  /** Where token i starts. */
  function Off(toks: seq<Token>, i: int): (o: int)
    requires 0 <= i <= |toks|
    ensures o >= 4 * i
  {
    SizeAll(toks[..i])
  }

  lemma OffNext(toks: seq<Token>, i: int)
    requires 0 <= i < |toks|
    ensures Off(toks, i + 1) == Off(toks, i) + Size(toks[i])
  {
    assert toks[..i + 1] == toks[..i] + [toks[i]];
    SizeAppend(toks[..i], [toks[i]]);
    assert SizeAll([toks[i]]) == Size(toks[i]);
  }

  lemma {:induction false} OffGrows(toks: seq<Token>, i: int, j: int)
    requires 0 <= i <= j <= |toks|
    ensures Off(toks, j) >= Off(toks, i) + 4 * (j - i)
    decreases j - i
  {
    if i < j {
      OffGrows(toks, i, j - 1);
      OffNext(toks, j - 1);
    }
  }

  lemma RunHolds(b: Block, toks: seq<Token>, i: int)
    requires Run(b, toks) && 0 <= i < |toks|
    ensures Holds(b, Off(toks, i), toks[i]) && Off(toks, i) % 4 == 0 && |b| <= INT_MAX
  {
    assert toks + [Fin] == toks[..i] + [toks[i]] + (toks[i + 1..] + [Fin]);
    LaidSplit(b, toks[..i], toks[i], toks[i + 1..] + [Fin]);
    SizeAllMod(toks[..i]);
  }

  /** What the walker finds at token i. */
  lemma RunAt(b: Block, toks: seq<Token>, i: int)
    requires Run(b, toks) && 0 <= i < |toks|
    ensures NextTag(b, Off(toks, i)) == (TagOf(toks[i]), Off(toks, i + 1)) && TokenAt(b, Off(toks, i)) == toks[i]
    ensures TagOf(toks[i]) != END && Off(toks, i) % 4 == 0 && Off(toks, i + 1) <= |b| <= INT_MAX
  {
    RunHolds(b, toks, i);
    TokenIs(b, Off(toks, i), toks[i]);
    OffNext(toks, i);
  }

  /** ... and behind the last one. */
  lemma RunAtEnd(b: Block, toks: seq<Token>)
    requires Run(b, toks)
    ensures NextTag(b, Off(toks, |toks|)) == (END, Off(toks, |toks|) + 4)
  {
    assert toks[..|toks|] == toks;
    LaidAppend(b, 0, toks, [Fin]);
    LaidOne(b, SizeAll(toks), Fin);
    SizeAllMod(toks);
    NextTagHolds(b, SizeAll(toks), Fin);
  }

  // ---------------------------------------------------------- fdt_next_node

  /** fdt_check_node_offset_ (lib/libfdt/fdt.c:231-241). */
  function CheckNode(b: Block, offset: int): int {
    if offset < 0 || offset % 4 != 0 || NextTag(b, offset).0 != BEGIN_NODE then -ERR_BADOFFSET else NextTag(b, offset).1
  }

  /** The loop of fdt_next_node (lib/libfdt/fdt.c:264-292) from offset o with
      depth d: what it returns and the depth then. */
  function WalkNode(b: Block, o: int, d: int): (r: (int, int))
    ensures r.0 >= 0 ==> r.0 >= o
    ensures d >= 0 && r.1 < 0 ==> r.0 >= 0
    decreases |b| - o
  {
    var (tag, next) := NextTag(b, o);
    if tag == BEGIN_NODE then (o, d + 1)
    else if tag == END_NODE then if d - 1 < 0 then (next, d - 1) else WalkNode(b, next, d - 1)
    else if tag == END then (if next >= 0 then -ERR_NOTFOUND else next, d)
    else WalkNode(b, next, d)
  }

  function NextNode(b: Block, offset: int, d: int): (r: (int, int))
    ensures offset >= 0 && r.0 >= 0 ==> offset + 4 <= |b| && offset + 4 <= r.0
  {
    if offset < 0 then WalkNode(b, 0, d)
    else if CheckNode(b, offset) < 0 then (CheckNode(b, offset), d)
    else WalkNode(b, CheckNode(b, offset), d)
  }

  /** fdt_next_node (lib/libfdt/fdt.c:255-293) as it runs. */
  method FdtNextNode(b: Block, start: int, depth: int) returns (offset: int, d: int)
    requires |b| < U32
    ensures (offset, d) == NextNode(b, start, depth)
  {
    var next := 0;
    d := depth;
    if start >= 0 {
      next := CheckNode(b, start);
      if next < 0 {
        return next, d;
      }
    }
    while true
      invariant next >= 0 && NextNode(b, start, depth) == WalkNode(b, next, d)
      decreases |b| - next
    {
      offset := next;
      var tag: int;
      tag, next := FdtNextTag(b, offset);
      if tag == BEGIN_NODE {
        d := d + 1;
        return;
      } else if tag == END_NODE {
        d := d - 1;
        if d < 0 {
          return next, d;
        }
      } else if tag == END {
        return if next >= 0 then -ERR_NOTFOUND else next, d;
      }
    }
  }

  /** Where the loop stops, on tokens. */
  datatype Stop = AtNode(index: int, depth: int) | LeftAt(index: int, depth: int) | NoMore(depth: int)

  function Scan(toks: seq<Token>, i: int, d: int): (s: Stop)
    requires 0 <= i <= |toks|
    ensures s.AtNode? ==> i <= s.index < |toks| && toks[s.index].Begin?
    ensures s.LeftAt? ==> i < s.index <= |toks| && toks[s.index - 1].EndNode?
    decreases |toks| - i
  {
    if i == |toks| then NoMore(d)
    else
      match toks[i]
      case Begin(_) => AtNode(i, d + 1)
      case EndNode => if d - 1 < 0 then LeftAt(i + 1, d - 1) else Scan(toks, i + 1, d - 1)
      case _ => Scan(toks, i + 1, d)
  }

  function StopOffset(toks: seq<Token>, s: Stop): int
    requires s.AtNode? || s.LeftAt? ==> 0 <= s.index <= |toks|
  {
    if s.NoMore? then -ERR_NOTFOUND else Off(toks, s.index)
  }

  /** On a block of tokens the walk is the scan. */
  lemma {:induction false} WalkScans(b: Block, toks: seq<Token>, i: int, d: int)
    requires Run(b, toks) && 0 <= i <= |toks|
    ensures var s := Scan(toks, i, d); WalkNode(b, Off(toks, i), d) == (StopOffset(toks, s), s.depth)
    decreases |toks| - i
  {
    if i == |toks| {
      RunAtEnd(b, toks);
    } else {
      RunAt(b, toks, i);
      if toks[i].EndNode? {
        if d > 0 { WalkScans(b, toks, i + 1, d - 1); }
      } else if !toks[i].Begin? {
        WalkScans(b, toks, i + 1, d);
      }
    }
  }

  /** From node i, fdt_next_node scans on behind its tag. */
  lemma NextNodeScans(b: Block, toks: seq<Token>, i: int, d: int)
    requires Run(b, toks) && 0 <= i < |toks| && toks[i].Begin?
    ensures var s := Scan(toks, i + 1, d); NextNode(b, Off(toks, i), d) == (StopOffset(toks, s), s.depth)
  {
    RunAt(b, toks, i);
    OffGrows(toks, i, i + 1);
    WalkScans(b, toks, i + 1, d);
  }

  // --------------------------------------------------------- visiting nodes

  function Delta(t: Token): int {
    if t.Begin? then 1 else if t.EndNode? then -1 else 0
  }

  /** Open nodes in front of token i. */
  function Depth(toks: seq<Token>, i: int): int
    requires 0 <= i <= |toks|
  {
    if i == 0 then 0 else Depth(toks, i - 1) + Delta(toks[i - 1])
  }

  ghost predicate NeverBelow(toks: seq<Token>) {
    forall i :: 0 <= i <= |toks| ==> Depth(toks, i) >= 0
  }

  /** The nodes from token i on: offset and nesting depth, the root's being 1. */
  function NodesFrom(toks: seq<Token>, i: int): seq<(int, int)>
    requires 0 <= i <= |toks|
    decreases |toks| - i
  {
    if i == |toks| then []
    else if toks[i].Begin? then [(Off(toks, i), Depth(toks, i + 1))] + NodesFrom(toks, i + 1)
    else NodesFrom(toks, i + 1)
  }

  lemma {:induction false} ScanNodes(toks: seq<Token>, i: int)
    requires 0 <= i <= |toks| && NeverBelow(toks)
    ensures var s := Scan(toks, i, Depth(toks, i));
      && !s.LeftAt?
      && (s.NoMore? ==> NodesFrom(toks, i) == [])
      && (s.AtNode? ==> s.depth == Depth(toks, s.index + 1)
                        && NodesFrom(toks, i) == [(Off(toks, s.index), s.depth)] + NodesFrom(toks, s.index + 1))
    decreases |toks| - i
  {
    if i < |toks| {
      assert Depth(toks, i + 1) == Depth(toks, i) + Delta(toks[i]);
      assert Depth(toks, i + 1) >= 0;
      if !toks[i].Begin? { ScanNodes(toks, i + 1); }
    }
  }

  /** fdt_next_node from token i, or from -1 before the first token. */
  method NextFrom(b: Block, ghost toks: seq<Token>, ghost i: int, offset: int, d: int) returns (next: int, depth: int)
    requires Run(b, toks) && -1 <= i < |toks|
    requires if i < 0 then offset == -1 else offset == Off(toks, i) && toks[i].Begin?
    ensures var s := Scan(toks, i + 1, d); next == StopOffset(toks, s) && depth == s.depth
  {
    if i < 0 {
      WalkScans(b, toks, 0, d);
    } else {
      NextNodeScans(b, toks, i, d);
    }
    next, depth := FdtNextNode(b, offset, d);
  }

  lemma Regroup<T>(a: seq<T>, x: T, c: seq<T>)
    ensures a + ([x] + c) == a + [x] + c
  {
  }

  /** Offsets strictly increase in order of visit. */
  ghost predicate Increasing(nodes: seq<(int, int)>) {
    forall a, c :: 0 <= a < c < |nodes| ==> nodes[a].0 < nodes[c].0
  }

  lemma {:induction false} NodesIncrease(toks: seq<Token>, i: int)
    requires 0 <= i <= |toks|
    ensures Increasing(NodesFrom(toks, i)) && forall a :: 0 <= a < |NodesFrom(toks, i)| ==>
      NodesFrom(toks, i)[a].0 >= Off(toks, i)
    decreases |toks| - i
  {
    if i < |toks| {
      NodesIncrease(toks, i + 1);
      OffNext(toks, i);
    }
  }

  /** Calling fdt_next_node from -1 on, as a caller that looks at every node
      does: every node once, in order of offset, at its depth, and then
      FDT_ERR_NOTFOUND. */
  method VisitNodes(b: Block, ghost toks: seq<Token>) returns (nodes: seq<(int, int)>, last: int)
    requires Run(b, toks) && NeverBelow(toks)
    ensures nodes == NodesFrom(toks, 0) && Increasing(nodes) && last == -ERR_NOTFOUND
  {
    nodes := [];
    ghost var i := 0;
    var offset, depth := NextFrom(b, toks, -1, -1, 0);
    while offset >= 0
      invariant 0 <= i <= |toks| && nodes + NodesFrom(toks, i) == NodesFrom(toks, 0)
      invariant offset == StopOffset(toks, Scan(toks, i, Depth(toks, i)))
      invariant depth == Scan(toks, i, Depth(toks, i)).depth
      decreases |toks| - i
    {
      ScanNodes(toks, i);
      ghost var j := Scan(toks, i, Depth(toks, i)).index;
      Regroup(nodes, (offset, depth), NodesFrom(toks, j + 1));
      nodes := nodes + [(offset, depth)];
      offset, depth := NextFrom(b, toks, j, offset, depth);
      i := j + 1;
    }
    ScanNodes(toks, i);
    NodesIncrease(toks, 0);
    last := offset;
  }

  // ------------------------------------------------------------- checking

  /** fdt_get_string as fdt_check_full uses it: 0, or why there is no string. */
  function StringError(t: seq<byte>, offset: int): int {
    if !(0 <= offset < |t|) then -ERR_BADOFFSET else if NulFrom(t, offset) < 0 then -ERR_TRUNCATED else 0
  }

  /** The loop of fdt_check_full (lib/libfdt/fdt_check.c:38-95) from offset o. */
  function CheckFrom(b: Block, t: seq<byte>, o: int, depth: int, ended: bool): int
    decreases |b| - o
  {
    var (tag, next) := NextTag(b, o);
    if next < 0 then next
    else if ended && tag != END && tag != NOP then -ERR_BADSTRUCTURE
    else if tag == NOP then CheckFrom(b, t, next, depth, ended)
    else if tag == END then if depth != 0 then -ERR_BADSTRUCTURE else 0
    else if tag == BEGIN_NODE then
      if depth + 1 > INT_MAX || (depth == 0 && TokenAt(b, o).name != []) then -ERR_BADSTRUCTURE
      else CheckFrom(b, t, next, depth + 1, ended)
    else if tag == END_NODE then
      if depth == 0 then -ERR_BADSTRUCTURE else CheckFrom(b, t, next, depth - 1, depth == 1)
    else
      var e := StringError(t, TokenAt(b, o).nameoff);
      if e != 0 then e else CheckFrom(b, t, next, depth, ended)
  }

  /** The loop as it runs. */
  method FdtCheckWalk(b: Block, t: seq<byte>) returns (err: int)
    requires |b| < U32
    ensures err == CheckFrom(b, t, 0, 0, false)
  {
    var next, depth, ended := 0, 0, false;
    while true
      invariant next >= 0 && depth >= 0 && (ended ==> depth == 0)
      invariant CheckFrom(b, t, 0, 0, false) == CheckFrom(b, t, next, depth, ended)
      decreases |b| - next
    {
      var offset := next;
      var tag: int;
      tag, next := FdtNextTag(b, offset);
      if next < 0 {
        return next;
      }
      if ended && tag != END && tag != NOP {
        return -ERR_BADSTRUCTURE;
      }
      if tag == END {
        return if depth != 0 then -ERR_BADSTRUCTURE else 0;
      } else if tag == BEGIN_NODE {
        depth := depth + 1;
        if depth > INT_MAX {
          return -ERR_BADSTRUCTURE;
        }
        if depth == 1 && TokenAt(b, offset).name != [] {
          return -ERR_BADSTRUCTURE;
        }
      } else if tag == END_NODE {
        if depth == 0 {
          return -ERR_BADSTRUCTURE;
        }
        depth := depth - 1;
        if depth == 0 {
          ended := true;
        }
      } else if tag == PROP {
        var e := StringError(t, TokenAt(b, offset).nameoff);
        if e != 0 {
          return e;
        }
      }
    }
  }

  /** The same decision on tokens. */
  ghost predicate Accepts(t: seq<byte>, toks: seq<Token>, i: int, depth: int, ended: bool)
    requires 0 <= i <= |toks|
    decreases |toks| - i
  {
    if i == |toks| then depth == 0
    else
      && (ended ==> toks[i].Nop?)
      && (toks[i].Begin? && depth == 0 ==> toks[i].name == [])
      && (toks[i].EndNode? ==> depth > 0)
      && (toks[i].Prop? ==> GetString(t, toks[i].nameoff).Text?)
      && Accepts(t, toks, i + 1, depth + Delta(toks[i]), ended || (toks[i].EndNode? && depth == 1))
  }

  lemma StringReadable(t: seq<byte>, offset: int)
    ensures StringError(t, offset) == 0 <==> GetString(t, offset).Text?
  {
  }

  /** One turn of the loop, at token i. */
  lemma CheckStep(b: Block, t: seq<byte>, toks: seq<Token>, i: int, depth: int, ended: bool)
    requires Run(b, toks) && 0 <= i < |toks| && 0 <= depth <= i
    ensures var tok, r := toks[i], CheckFrom(b, t, Off(toks, i), depth, ended);
      var good := && (ended ==> tok.Nop?) && (tok.Begin? && depth == 0 ==> tok.name == [])
        && (tok.EndNode? ==> depth > 0)
                  && (tok.Prop? ==> GetString(t, tok.nameoff).Text?);
      if good then r == CheckFrom(b, t, Off(toks, i + 1), depth + Delta(tok), ended || (tok.EndNode? && depth == 1))
        else r != 0
  {
    RunAt(b, toks, i);
    OffGrows(toks, 0, i);
    if toks[i].Prop? { StringReadable(t, toks[i].nameoff); }
  }

  /** On a block of tokens the loop accepts what the tokens deserve. */
  lemma {:induction false} CheckAccepts(b: Block, t: seq<byte>, toks: seq<Token>, i: int, depth: int, ended: bool)
    requires Run(b, toks) && 0 <= i <= |toks| && 0 <= depth <= i && (ended ==> depth == 0)
    ensures CheckFrom(b, t, Off(toks, i), depth, ended) == 0 <==> Accepts(t, toks, i, depth, ended)
    decreases |toks| - i
  {
    if i == |toks| {
      RunAtEnd(b, toks);
    } else {
      CheckStep(b, t, toks, i, depth, ended);
      if (ended ==> toks[i].Nop?) && (toks[i].EndNode? ==> depth > 0) {
        CheckAccepts(b, t, toks, i + 1, depth + Delta(toks[i]), ended || (toks[i].EndNode? && depth == 1));
      }
    }
  }

  /** Token k is the end of a top-level node. */
  ghost predicate Closes(toks: seq<Token>, k: int)
    requires 0 <= k < |toks|
  {
    toks[k].EndNode? && Depth(toks, k + 1) == 0
  }

  ghost predicate Quiet(toks: seq<Token>, k: int)
    requires 0 <= k
  {
    forall j :: k <= j < |toks| ==> toks[j].Nop?
  }

  /** A top-level node has no name, a property has one that can be read. */
  ghost predicate Fine(t: seq<byte>, toks: seq<Token>, k: int)
    requires 0 <= k < |toks|
  {
    (toks[k].Begin? && Depth(toks, k) == 0 ==> toks[k].name == [])
    && (toks[k].Prop? ==> GetString(t, toks[k].nameoff).Text?)
  }

  /** A well-formed tree, from token i on. */
  ghost predicate ProperFrom(t: seq<byte>, toks: seq<Token>, i: int)
    requires 0 <= i <= |toks|
  {
    && (forall k :: i <= k <= |toks| ==> Depth(toks, k) >= 0) && Depth(toks, |toks|) == 0
    && (forall k :: i <= k < |toks| ==> Fine(t, toks, k))
    && (forall k :: i <= k < |toks| && Closes(toks, k) ==> Quiet(toks, k + 1))
  }

  lemma ProperStep(t: seq<byte>, toks: seq<Token>, i: int)
    requires 0 <= i < |toks|
    ensures ProperFrom(t, toks, i) <==>
            Depth(toks, i) >= 0 && Fine(t, toks, i) && (Closes(toks, i) ==> Quiet(toks, i + 1))
            && ProperFrom(t, toks, i + 1)
  {
  }

  lemma {:induction false} AcceptsProper(t: seq<byte>, toks: seq<Token>, i: int, ended: bool)
    requires 0 <= i <= |toks| && Depth(toks, i) >= 0
    ensures Accepts(t, toks, i, Depth(toks, i), ended) <==> ProperFrom(t, toks, i) && (ended ==> Quiet(toks, i))
    decreases |toks| - i
  {
    if i < |toks| {
      var d := Depth(toks, i);
      assert Depth(toks, i + 1) == d + Delta(toks[i]);
      ProperStep(t, toks, i);
      if toks[i].EndNode? && d == 0 {
        assert !ProperFrom(t, toks, i + 1);
      } else {
        AcceptsProper(t, toks, i + 1, ended || Closes(toks, i));
        assert ended && toks[i].Nop? ==> (Quiet(toks, i) <==> Quiet(toks, i + 1));
        assert Closes(toks, i) <==> toks[i].EndNode? && d == 1;
      }
    }
  }

  /** The tokens the walker meets from o on. */
  ghost function TokensFrom(b: Block, o: int): seq<Token>
    decreases |b| - o
  {
    var (tag, next) := NextTag(b, o);
    if next < 0 || tag == END then [] else [TokenAt(b, o)] + TokensFrom(b, next)
  }

  lemma CheckFirst(b: Block, t: seq<byte>, o: int, depth: int, ended: bool)
    requires CheckFrom(b, t, o, depth, ended) == 0
    ensures var (tag, next) := NextTag(b, o);
      0 <= o && o + 4 <= |b| && next >= 0 && (tag != END ==> exists d, e :: CheckFrom(b, t, next, d, e) == 0)
  {
  }

  lemma FinHolds(b: Block, o: int)
    requires NextTag(b, o).0 == END && NextTag(b, o).1 >= 0
    ensures Holds(b, o, Fin)
  {
    HoldsIs(b, o, Fin);
  }

  lemma NextAligned(b: Block, o: int)
    requires 0 <= NextTag(b, o).1
    ensures NextTag(b, o).1 % 4 == 0
  {
    var tag := Get32(b, o);
    if tag == BEGIN_NODE {
      AlignUp(NulFrom(b, o + 4) + 1);
    } else if tag == PROP {
      AlignUp(o + 12 + Get32(b, o + 4));
    } else {
      AlignUp(o + 4);
    }
  }

  /** One more token in front. */
  lemma LaidFront(b: Block, o: int, ts: seq<Token>)
    requires o % 4 == 0 && 0 <= NextTag(b, o).1 <= |b| && Laid(b, NextTag(b, o).1, ts + [Fin])
    ensures Laid(b, o, [TokenAt(b, o)] + ts + [Fin])
  {
    TokenHolds(b, o);
    var us := [TokenAt(b, o)] + ts + [Fin];
    assert us[0] == TokenAt(b, o) && us[1..] == ts + [Fin];
    LaidCons(b, o, us);
  }

  /** A block that passes is a run of tokens. */
  lemma {:induction false} CheckedIsRun(b: Block, t: seq<byte>, o: int, depth: int, ended: bool)
    requires CheckFrom(b, t, o, depth, ended) == 0 && o % 4 == 0
    ensures Laid(b, o, TokensFrom(b, o) + [Fin]) && NoFin(TokensFrom(b, o))
    decreases |b| - o
  {
    CheckFirst(b, t, o, depth, ended);
    var (tag, next) := NextTag(b, o);
    if tag == END {
      FinHolds(b, o);
      LaidOne(b, o, Fin);
      assert TokensFrom(b, o) + [Fin] == [Fin];
    } else {
      var d, e :| CheckFrom(b, t, next, d, e) == 0;
      CheckFirst(b, t, next, d, e);
      NextAligned(b, o);
      CheckedIsRun(b, t, next, d, e);
      LaidFront(b, o, TokensFrom(b, next));
    }
  }

  /** fdt_check_full passes a structure block exactly when it is a run of tokens
      that nests: depth never below zero and zero at the end, at most one
      top-level node, that one without a name, and every property name readable. */
  lemma CheckExact(b: Block, t: seq<byte>)
    requires |b| <= INT_MAX
    ensures CheckFrom(b, t, 0, 0, false) == 0 <==> exists toks :: Run(b, toks) && ProperFrom(t, toks, 0)
  {
    if CheckFrom(b, t, 0, 0, false) == 0 {
      var toks := TokensFrom(b, 0);
      CheckedIsRun(b, t, 0, 0, false);
      CheckAccepts(b, t, toks, 0, 0, false);
      AcceptsProper(t, toks, 0, false);
      assert Run(b, toks) && ProperFrom(t, toks, 0);
    }
    forall toks | Run(b, toks) && ProperFrom(t, toks, 0)
      ensures CheckFrom(b, t, 0, 0, false) == 0
    {
      CheckAccepts(b, t, toks, 0, 0, false);
      AcceptsProper(t, toks, 0, false);
    }
  }

  /** Between a node and a later token at its own depth the node is closed. */
  lemma {:induction false} ClosedBetween(toks: seq<Token>, i: int, j: int) returns (k: int)
    requires 0 <= i < j <= |toks| && toks[i].Begin? && Depth(toks, i) == 0 && Depth(toks, j) <= 0
    requires forall k :: 0 <= k <= |toks| ==> Depth(toks, k) >= 0
    ensures i < k < j && Closes(toks, k)
    decreases j
  {
    assert Depth(toks, i + 1) == 1;
    assert Depth(toks, j) == Depth(toks, j - 1) + Delta(toks[j - 1]);
    if Depth(toks, j - 1) == 0 {
      k := ClosedBetween(toks, i, j - 1);
    } else {
      k := j - 1;
    }
  }

  /** A well-formed tree has at most one top-level node. */
  lemma OneRoot(t: seq<byte>, toks: seq<Token>, i: int, j: int)
    requires ProperFrom(t, toks, 0) && 0 <= i < |toks| && 0 <= j < |toks|
    requires toks[i].Begin? && toks[j].Begin? && Depth(toks, i) == 0 && Depth(toks, j) == 0
    ensures i == j
  {
    if i < j {
      var k := ClosedBetween(toks, i, j);
      assert false;
    } else if j < i {
      var k := ClosedBetween(toks, j, i);
      assert false;
    }
  }

  /** After a passed check every node is visited once, at its depth. */
  method CheckAndVisit(b: Block, t: seq<byte>) returns (err: int, nodes: seq<(int, int)>, last: int)
    requires |b| <= INT_MAX
    ensures err == 0 <==> exists toks :: Run(b, toks) && ProperFrom(t, toks, 0)
    ensures err == 0 ==> exists toks :: Run(b, toks) && ProperFrom(t, toks, 0) && nodes == NodesFrom(toks, 0)
    ensures err == 0 ==> Increasing(nodes) && last == -ERR_NOTFOUND
  {
    nodes, last := [], 0;
    CheckExact(b, t);
    err := FdtCheckWalk(b, t);
    if err == 0 {
      ghost var toks :| Run(b, toks) && ProperFrom(t, toks, 0);
      nodes, last := VisitNodes(b, toks);
    }
  }
}
