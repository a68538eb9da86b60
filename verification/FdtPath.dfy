/** Paths: fdt_path_offset and fdt_get_path (lib/libfdt/fdt_ro.c). */
module FdtPath {
  import opened Bytes
  import opened FdtTags
  import opened FdtStream
  import opened FdtWalk
  import opened FdtEdit
  import opened FdtTrees
  import opened FdtLookup
  import opened FdtSearch
  import MemOps

  const SLASH: byte := 47

  ghost predicate NoSlash(s: seq<byte>) { SLASH !in s }

  ghost predicate PathNames(names: seq<seq<byte>>) {
    forall i :: 0 <= i < |names| ==> names[i] != [] && NoSlash(names[i])
  }

  // ------------------------------------------------------- path to offset

  /** memchr for a slash: its index from p on, or the end of the text. */
  function SlashFrom(text: seq<byte>, p: int): (q: int)
    requires 0 <= p <= |text|
    ensures p <= q <= |text| && (q < |text| ==> text[q] == SLASH) && NoSlash(text[p..q])
    decreases |text| - p
  {
    if p == |text| || text[p] == SLASH then p
    else
      var q := SlashFrom(text, p + 1);
      assert text[p..q] == [text[p]] + text[p + 1..q];
      q
  }

  /** The components of a path: what stands between slashes. */
  function Components(text: seq<byte>, p: int): seq<seq<byte>>
    requires 0 <= p <= |text|
    decreases |text| - p
  {
    if p == |text| then []
    else if text[p] == SLASH then Components(text, p + 1)
    else [text[p..SlashFrom(text, p)]] + Components(text, SlashFrom(text, p))
  }

  const ERR_BADPATH := 5

  /** fdt_path_offset_namelen (lines 252-298) for a path that starts with a slash. */
  method FdtPathOffset(b: Block, path: seq<byte>) returns (offset: int)
    requires |b| < U32 && (path != [] ==> path[0] == SLASH)
    ensures offset == if path == [] then -ERR_BADPATH else Descend(b, 0, Components(path, 0))
  {
    if path == [] {
      return -ERR_BADPATH;
    }
    offset := 0;
    var p := 0;
    while p < |path|
      invariant 0 <= p <= |path| && Descend(b, 0, Components(path, 0)) == Descend(b, offset, Components(path, p))
      decreases |path| - p
    {
      while path[p] == SLASH
        invariant 0 <= p < |path| && Descend(b, 0, Components(path, 0)) == Descend(b, offset, Components(path, p))
        decreases |path| - p
      {
        p := p + 1;
        if p == |path| {
          return;
        }
      }
      var q := SlashFrom(path, p);
      offset := FdtSubnode(b, offset, path[p..q]);
      if offset < 0 {
        return;
      }
      p := q;
    }
  }

  /** The text of a path: every name behind a slash. */
  function Joined(names: seq<seq<byte>>): (r: seq<byte>) {
    if names == [] then [] else [SLASH] + names[0] + Joined(names[1..])
  }

  /** The root is a slash of its own. */
  function PathText(names: seq<seq<byte>>): seq<byte> {
    if names == [] then [SLASH] else Joined(names)
  }

  lemma {:induction false} SlashAfter(text: seq<byte>, p: int, name: seq<byte>)
    requires 0 <= p && p + |name| <= |text| && text[p..p + |name|] == name && NoSlash(name)
    requires p + |name| == |text| || text[p + |name|] == SLASH
    ensures SlashFrom(text, p) == p + |name|
    decreases |name|
  {
    if name != [] {
      assert text[p] == text[p..p + |name|][0] == name[0];
      assert text[p + 1..p + |name|] == name[1..];
      SlashAfter(text, p + 1, name[1..]);
    }
  }

  lemma JoinedParts(text: seq<byte>, p: int, n: seq<byte>, rest: seq<byte>)
    requires 0 <= p <= |text| && text[p..] == [SLASH] + n + rest
    ensures p + 1 + |n| <= |text| && text[p] == SLASH && text[p + 1..p + 1 + |n|] == n && text[p + 1 + |n|..] == rest
  {
    var j := [SLASH] + n + rest;
    assert text[p] == text[p..][0] == j[0];
    assert text[p + 1..p + 1 + |n|] == text[p..][1..1 + |n|] == j[1..1 + |n|];
    assert text[p + 1 + |n|..] == text[p..][1 + |n|..] == j[1 + |n|..];
  }

  lemma OneComponent(text: seq<byte>, p: int, n: seq<byte>)
    requires 0 <= p && p + 1 + |n| <= |text| && text[p] == SLASH && text[p + 1..p + 1 + |n|] == n && n != []
    requires NoSlash(n)
    requires p + 1 + |n| == |text| || text[p + 1 + |n|] == SLASH
    ensures Components(text, p) == [n] + Components(text, p + 1 + |n|)
  {
    SlashAfter(text, p + 1, n);
    assert text[p + 1] == text[p + 1..p + 1 + |n|][0];
  }

  /** Splitting the text gives the names back. */
  lemma {:induction false} ComponentsBack(text: seq<byte>, p: int, names: seq<seq<byte>>)
    requires PathNames(names) && 0 <= p <= |text| && text[p..] == Joined(names)
    ensures Components(text, p) == names
    decreases |names|
  {
    if names != [] {
      var n, q := names[0], p + 1 + |names[0]|;
      JoinedParts(text, p, n, Joined(names[1..]));
      assert q < |text| ==> text[q] == text[q..][0];
      OneComponent(text, p, n);
      ComponentsBack(text, q, names[1..]);
    }
  }

  lemma TextBack(names: seq<seq<byte>>)
    requires PathNames(names)
    ensures PathText(names) != [] && PathText(names)[0] == SLASH && Components(PathText(names), 0) == names
  {
    var text := PathText(names);
    if names == [] {
      assert Components(text, 1) == [];
    } else {
      assert text[0..] == Joined(names);
      ComponentsBack(text, 0, names);
    }
  }

  /** fdt_path_offset of the text of a path finds its node. */
  lemma PathFinds(b: Block, s: seq<byte>, toks: seq<Token>, i: int, t: Tree, p: Path)
    requires Run(b, toks) && NodeAt(s, toks, 0, t, []) && NodeAt(s, toks, i, t, p) && Unambiguous(t, p)
    requires PathNames(NamesTo(t, p))
    ensures Descend(b, 0, Components(PathText(NamesTo(t, p)), 0)) == Off(toks, i)
  {
    TextBack(NamesTo(t, p));
    var e := DescendFinds(b, s, toks, 0, t, [], p);
    assert [] + p == p;
    NodeUnique(s, toks, e, i, t, p);
  }

  // ------------------------------------------------------- offset to path

  /** Names of the nodes that are open in front of token i, the root first. */
  function Stack(toks: seq<Token>, i: int): (st: seq<seq<byte>>)
    requires 0 <= i <= |toks|
  {
    if i == 0 then []
    else
      var st := Stack(toks, i - 1);
      match toks[i - 1]
      case Begin(name) => st + [name]
      case EndNode => if st == [] then [] else st[..|st| - 1]
      case _ => st
  }

  /** The buffer while it is filled: every name and a slash. */
  function Slashed(names: seq<seq<byte>>): (r: seq<byte>)
    ensures |r| >= |names| && (names != [] ==> r[|r| - 1] == SLASH)
  {
    if names == [] then [] else Slashed(names[..|names| - 1]) + names[|names| - 1] + [SLASH]
  }

  /** How many names fit into n bytes. */
  function Fitting(names: seq<seq<byte>>, n: int): (k: int)
    ensures 0 <= k <= |names|
  {
    if names == [] then 0
    else
      var m := names[..|names| - 1];
      if Fitting(m, n) == |m| && |Slashed(names)| <= n then |names| else Fitting(m, n)
  }

  lemma SlashedMore(names: seq<seq<byte>>, name: seq<byte>)
    ensures Slashed(names + [name]) == Slashed(names) + name + [SLASH]
  {
    assert (names + [name])[..|names|] == names;
  }

  lemma FittingMore(names: seq<seq<byte>>, name: seq<byte>, n: int)
    ensures Fitting(names + [name], n) == if Fitting(names, n) == |names| && |Slashed(names + [name])| <= n
      then |names| + 1 else Fitting(names, n)
  {
    assert (names + [name])[..|names|] == names;
  }

  /** What fits of a prefix is what fits, cut to the prefix. */
  lemma {:induction false} FittingPrefix(names: seq<seq<byte>>, d: int, n: int)
    requires 0 <= d <= |names|
    ensures Fitting(names[..d], n) == if Fitting(names, n) <= d then Fitting(names, n) else d
    decreases |names|
  {
    if d == |names| {
      assert names[..d] == names;
    } else {
      var m := names[..|names| - 1];
      FittingPrefix(m, d, n);
      assert m[..d] == names[..d];
      if Fitting(names, n) == |names| {
        assert Fitting(m, n) == |m|;
      }
    }
  }

  /** A whole path fits exactly when its bytes do. */
  lemma {:induction false} FittingAll(names: seq<seq<byte>>, n: int)
    requires n >= 0
    ensures Fitting(names, n) == |names| <==> |Slashed(names)| <= n
  {
    if names != [] {
      FittingAll(names[..|names| - 1], n);
    }
  }

  // ------------------------------------------------------ filling the buffer

  ghost predicate HoldsText(buf: seq<byte>, p: int, text: seq<byte>) {
    0 <= p <= |buf| && buf[..p] == text
  }

  /** In front of the closing slash the next one back ends the names before. */
  lemma LastSlash(m: seq<byte>, n: seq<byte>, q: int)
    requires NoSlash(n) && |m| <= q <= |m| + |n| && (q > 0 ==> (m + n + [SLASH])[q - 1] == SLASH)
    ensures q == |m|
  {
  }

  /** Back over the last name (lines 588-590). */
  method PopName(buf: array<byte>, p: int, ghost names: seq<seq<byte>>) returns (q: int)
    requires |names| >= 2 && NoSlash(names[|names| - 1]) && HoldsText(buf[..], p, Slashed(names))
    ensures HoldsText(buf[..], q, Slashed(names[..|names| - 1]))
  {
    ghost var m, n := Slashed(names[..|names| - 1]), names[|names| - 1];
    ghost var text := m + n + [SLASH];
    assert forall k {:trigger buf[k]} :: 0 <= k < p ==> buf[k] == buf[..][..p][k];
    assert text[..|m|] == m;
    q := p - 1;
    while buf[q - 1] != SLASH
      invariant |m| <= q <= |m| + |n|
      decreases q
    {
      q := q - 1;
    }
    LastSlash(m, n, q);
    assert buf[..][..q] == buf[..][..p][..q];
  }

  /** Back to the depth of the node (lines 587-592). */
  method PopTo(buf: array<byte>, p: int, pdepth: int, depth: int, ghost names: seq<seq<byte>>) returns (q: int, d: int)
    requires 0 <= pdepth <= |names| && 0 <= depth && (depth >= 1 || pdepth == 0)
    requires HoldsText(buf[..], p, Slashed(names[..pdepth]))
    requires forall k :: 0 <= k < |names| ==> NoSlash(names[k])
    ensures d == (if pdepth <= depth then pdepth else depth) && HoldsText(buf[..], q, Slashed(names[..d]))
  {
    q, d := p, pdepth;
    while d > depth
      invariant (if pdepth <= depth then d == pdepth else depth <= d <= pdepth)
      invariant HoldsText(buf[..], q, Slashed(names[..d]))
      decreases d
    {
      assert names[..d][..d - 1] == names[..d - 1] && names[..d][d - 1] == names[d - 1];
      q := PopName(buf, q, names[..d]);
      d := d - 1;
    }
  }

  /** One more name and a slash, if they fit (lines 598-603). */
  method PushName(buf: array<byte>, p: int, name: seq<byte>, ghost names: seq<seq<byte>>) returns (q: int)
    requires HoldsText(buf[..], p, Slashed(names)) && p + |name| + 1 <= buf.Length
    modifies buf
    ensures HoldsText(buf[..], q, Slashed(names + [name]))
  {
    ghost var was := buf[..];
    MemOps.Memcpy(buf, p, name);
    ghost var mid := buf[..];
    q := p + |name|;
    buf[q] := SLASH;
    q := q + 1;
    SlashedMore(names, name);
    Pushed(was, mid, buf[..], p, name);
  }

  lemma Pushed(a: seq<byte>, m: seq<byte>, b: seq<byte>, p: int, name: seq<byte>)
    requires 0 <= p && p + |name| + 1 <= |a| && m == Overwrite(a, p, name) && b == m[p + |name| := SLASH]
    ensures b[..p + |name| + 1] == a[..p] + name + [SLASH]
  {
  }

  /** The buffer is filled with as much of the chain as fits. */
  ghost predicate Filled(buf: seq<byte>, p: int, pdepth: int, names: seq<seq<byte>>) {
    pdepth == Fitting(names, |buf|) && HoldsText(buf, p, Slashed(names[..pdepth]))
  }

  /** The body of the loop of fdt_get_path for one node (lines 587-604). */
  method VisitName(buf: array<byte>, p: int, pdepth: int, depth: int, name: seq<byte>, ghost names: seq<seq<byte>>)
    returns (q: int, d: int)
    requires Filled(buf[..], p, pdepth, names) && 0 <= depth <= |names| && (depth >= 1 || names == [])
    requires forall k :: 0 <= k < |names| ==> NoSlash(names[k])
    modifies buf
    ensures Filled(buf[..], q, d, names[..depth] + [name])
  {
    ghost var chain := names[..depth];
    q, d := PopTo(buf, p, pdepth, depth, names);
    VisitFits(names, depth, name, buf.Length);
    if d >= depth {
      assert names[..d] == chain;
      if q + |name| + 1 <= buf.Length {
        q := PushName(buf, q, name, chain);
        d := d + 1;
        FilledIs(buf[..], q, d, chain + [name], chain + [name]);
      } else {
        FilledIs(buf[..], q, d, chain + [name], chain);
      }
    } else {
      assert (chain + [name])[..d] == names[..d];
      FilledIs(buf[..], q, d, chain + [name], names[..d]);
    }
  }

  /** How many names fit once the stack is cut back and has one more. */
  lemma VisitFits(names: seq<seq<byte>>, depth: int, name: seq<byte>, n: int)
    requires 0 <= depth <= |names|
    ensures var chain, k := names[..depth], Fitting(names, n);
      Fitting(chain + [name], n)
        == if k < depth then k else if |Slashed(chain)| + |name| + 1 <= n then depth + 1 else depth
  {
    FittingPrefix(names, depth, n);
    FittingMore(names[..depth], name, n);
    SlashedMore(names[..depth], name);
  }

  lemma FilledIs(buf: seq<byte>, q: int, d: int, names: seq<seq<byte>>, chain: seq<seq<byte>>)
    requires d == Fitting(names, |buf|) && chain == names[..d] && HoldsText(buf, q, Slashed(chain))
    ensures Filled(buf, q, d, names)
  {
  }

  // ---------------------------------------------------------- fdt_get_path

  /** The stack is as deep as the nesting. */
  lemma {:induction false} StackDepth(toks: seq<Token>, i: int)
    requires 0 <= i <= |toks| && forall k :: 0 <= k <= i ==> Depth(toks, k) >= 0
    ensures |Stack(toks, i)| == Depth(toks, i)
  {
    if i > 0 {
      StackDepth(toks, i - 1);
      assert Depth(toks, i) == Depth(toks, i - 1) + Delta(toks[i - 1]);
    }
  }

  /** On the way to the next node names are only taken off the stack. */
  lemma {:induction false} ScanStack(toks: seq<Token>, j: int, d: int)
    requires 0 <= j <= |toks| && d >= 0 && |Stack(toks, j)| == d + 1
    ensures var s := Scan(toks, j, d);
      s.AtNode? ==> 1 <= s.depth <= d + 1 && Stack(toks, s.index) == Stack(toks, j)[..s.depth]
    decreases |toks| - j
  {
    if j < |toks| {
      if toks[j].EndNode? {
        if d > 0 { ScanStack(toks, j + 1, d - 1); }
      } else if !toks[j].Begin? {
        ScanStack(toks, j + 1, d);
      }
    }
  }

  /** Inside the root the next node comes before any later one. */
  lemma {:induction false} ScanReaches(toks: seq<Token>, j: int, d: int, i: int)
    requires 0 <= j <= i < |toks| && toks[i].Begin? && Depth(toks, j) == d + 1 && forall k :: j <= k <= i ==>
      Depth(toks, k) >= 1
    ensures var s := Scan(toks, j, d); s.AtNode? && j <= s.index <= i
    decreases i - j
  {
    if j < i && !toks[j].Begin? {
      assert Depth(toks, j + 1) == Depth(toks, j) + Delta(toks[j]);
      assert Depth(toks, j + 1) >= 1;
      ScanReaches(toks, j + 1, d + Delta(toks[j]), i);
    }
  }

  /** Token i opens a node of the tree whose root is the first token. */
  ghost predicate InsideRoot(toks: seq<Token>, i: int) {
    && 0 <= i < |toks| && toks[0].Begin? && toks[i].Begin?
    && forall k :: 0 < k <= i ==> Depth(toks, k) >= 1
  }

  ghost predicate SlashFree(names: seq<seq<byte>>) {
    forall k :: 0 <= k < |names| ==> NoSlash(names[k])
  }

  ghost predicate SlashFreeNodes(toks: seq<Token>) {
    forall k :: 0 <= k < |toks| && toks[k].Begin? ==> NoSlash(toks[k].name)
  }

  lemma {:induction false} StackSlashFree(toks: seq<Token>, i: int)
    requires 0 <= i <= |toks| && SlashFreeNodes(toks)
    ensures SlashFree(Stack(toks, i))
  {
    if i > 0 { StackSlashFree(toks, i - 1); }
  }

  /** From node c to the next one on the way to node i. */
  lemma NextOnWay(toks: seq<Token>, c: int, i: int)
    requires InsideRoot(toks, i) && 0 <= c < i && toks[c].Begin?
    ensures var d := |Stack(toks, c)|; var s := Scan(toks, c + 1, d);
      && s.AtNode? && c < s.index <= i && 1 <= s.depth <= d + 1
      && Stack(toks, s.index) == Stack(toks, c + 1)[..s.depth] && |Stack(toks, c + 1)| == d + 1
  {
    StackDepth(toks, c + 1);
    var d := |Stack(toks, c)|;
    ScanReaches(toks, c + 1, d, i);
    ScanStack(toks, c + 1, d);
  }

  /** The end of fdt_get_path (lines 606-614): the last slash gives way to a NUL. */
  method ClosePath(buf: array<byte>, p: int, ghost names: seq<seq<byte>>)
    requires names != [] && HoldsText(buf[..], p, Slashed(names)) && buf.Length >= 2
    modifies buf
    ensures var text := Trimmed(Slashed(names)); |text| < buf.Length && buf[..|text| + 1] == text + [0]
  {
    ghost var text, was := Trimmed(Slashed(names)), buf[..];
    var q := if p > 1 then p - 1 else p;
    assert was[..q] == text;
    buf[q] := 0;
    assert buf[..q] == text;
  }

  /** Without the slash at the end, but for the root's own. */
  function Trimmed(text: seq<byte>): seq<byte> {
    if |text| > 1 then text[..|text| - 1] else text
  }

  /** fdt_get_path (lines 573-614) for the offset of node i. */
  method FdtGetPath(b: Block, node: int, buf: array<byte>, ghost toks: seq<Token>, ghost i: int) returns (r: int)
    requires Run(b, toks) && InsideRoot(toks, i) && SlashFreeNodes(toks) && node == Off(toks, i)
    modifies buf
    ensures var full := Slashed(Stack(toks, i + 1));
      && r == (if buf.Length >= 2 && |full| <= buf.Length then 0 else -ERR_NOSPACE)
      && (r == 0 ==> |Trimmed(full)| < buf.Length && buf[..|Trimmed(full)| + 1] == Trimmed(full) + [0])
  {
    if buf.Length < 2 {
      return -ERR_NOSPACE;
    }
    ghost var c := 0;
    var offset, depth, p, pdepth := 0, 0, 0, 0;
    FirstOffset(toks);
    p, pdepth := VisitAt(b, offset, buf, p, pdepth, depth, toks, c, []);
    while offset != node
      invariant 0 <= c <= i && toks[c].Begin? && offset == Off(toks, c) && depth == |Stack(toks, c)|
      invariant Filled(buf[..], p, pdepth, Stack(toks, c + 1))
      decreases i - c
    {
      OffsetDistinct(toks, c, i);
      NextOnWay(toks, c, i);
      ghost var prev, s := Stack(toks, c + 1), Scan(toks, c + 1, depth);
      offset, depth := NextFrom(b, toks, c, offset, depth);
      StackSlashFree(toks, c + 1);
      c := s.index;
      p, pdepth := VisitAt(b, offset, buf, p, pdepth, depth, toks, c, prev);
    }
    OffsetUnique(toks, c, i);
    FittingAll(Stack(toks, i + 1), buf.Length);
    if pdepth < depth + 1 {
      return -ERR_NOSPACE;
    }
    WholeStack(toks, i, pdepth);
    ClosePath(buf, p, Stack(toks, i + 1));
    return 0;
  }

  /** The body of the loop at node c. */
  method VisitAt(b: Block, offset: int, buf: array<byte>, p: int, pdepth: int, depth: int, ghost toks: seq<Token>,
      ghost c: int, ghost prev: seq<seq<byte>>)
      returns (q: int, d: int)
    requires Run(b, toks) && 0 <= c < |toks| && toks[c].Begin? && offset == Off(toks, c) && depth == |Stack(toks, c)|
    requires Filled(buf[..], p, pdepth, prev) && depth <= |prev| && (depth >= 1 || prev == []) && SlashFree(prev)
    requires Stack(toks, c) == prev[..depth]
    modifies buf
    ensures Filled(buf[..], q, d, Stack(toks, c + 1))
  {
    RunAt(b, toks, c);
    q, d := VisitName(buf, p, pdepth, depth, TokenAt(b, offset).name, prev);
  }

  lemma FirstOffset(toks: seq<Token>)
    requires toks != []
    ensures Off(toks, 0) == 0 && Stack(toks, 0) == []
  {
    assert toks[..0] == [];
  }

  lemma OffsetUnique(toks: seq<Token>, c: int, i: int)
    requires 0 <= c <= i <= |toks| && Off(toks, c) == Off(toks, i)
    ensures c == i
  {
    OffGrows(toks, c, i);
  }

  lemma OffsetDistinct(toks: seq<Token>, c: int, i: int)
    requires 0 <= c <= i <= |toks| && Off(toks, c) != Off(toks, i)
    ensures c < i
  {
  }

  lemma WholeStack(toks: seq<Token>, i: int, d: int)
    requires 0 <= i < |toks| && toks[i].Begin? && d == |Stack(toks, i)| + 1
    ensures Stack(toks, i + 1) != [] && Stack(toks, i + 1)[..d] == Stack(toks, i + 1)
  {
  }

  // ------------------------------------------------------------- on trees

  function Turn(st: seq<seq<byte>>, e: Entry): seq<seq<byte>> {
    match e
    case Open(name) => st + [name]
    case Close => if st == [] then [] else st[..|st| - 1]
    case Property(_, _) => st
  }

  /** The open nodes after the calls es. */
  function Opened(st: seq<seq<byte>>, es: seq<Entry>): seq<seq<byte>>
    decreases |es|
  {
    if es == [] then st else Opened(Turn(st, es[0]), es[1..])
  }

  lemma {:induction false} OpenedAppend(st: seq<seq<byte>>, a: seq<Entry>, c: seq<Entry>)
    ensures Opened(st, a + c) == Opened(Opened(st, a), c)
    decreases |a|
  {
    if a == [] {
      assert a + c == c;
    } else {
      assert (a + c)[0] == a[0] && (a + c)[1..] == a[1..] + c;
      OpenedAppend(Turn(st, a[0]), a[1..], c);
    }
  }

  lemma OpenedOne(st: seq<seq<byte>>, e: Entry)
    ensures Opened(st, [e]) == Turn(st, e)
  {
    assert [e][1..] == [];
  }

  lemma {:induction false} OpenedProps(st: seq<seq<byte>>, ps: seq<(seq<byte>, seq<byte>)>)
    ensures Opened(st, FlattenProps(ps)) == st
  {
    if ps != [] {
      var es := FlattenProps(ps);
      assert es[0] == Property(ps[0].0, ps[0].1) && es[1..] == FlattenProps(ps[1..]);
      OpenedProps(st, ps[1..]);
    }
  }

  /** A node closes what it opens. */
  lemma {:induction false} OpenedTree(st: seq<seq<byte>>, t: Tree)
    ensures Opened(st, Flatten(t)) == st
    decreases t, 1
  {
    var o, ps, kids := [Open(t.name)], FlattenProps(t.props), FlattenAll(t.children);
    OpenedAppend(st, o + ps + kids, [Close]);
    OpenedAppend(st, o + ps, kids);
    OpenedAppend(st, o, ps);
    OpenedOne(st, Open(t.name));
    OpenedProps(st + [t.name], t.props);
    OpenedForest(st + [t.name], t.children);
    OpenedOne(st + [t.name], Close);
    assert (st + [t.name])[..|st|] == st;
  }

  lemma {:induction false} OpenedForest(st: seq<seq<byte>>, ts: seq<Tree>)
    ensures Opened(st, FlattenAll(ts)) == st
    decreases ts, 0
  {
    if ts != [] {
      OpenedAppend(st, Flatten(ts[0]), FlattenAll(ts[1..]));
      OpenedTree(st, ts[0]);
      OpenedForest(st, ts[1..]);
    }
  }

  /** In front of the node at p its ancestors are open. */
  lemma {:induction false} OpenedBefore(st: seq<seq<byte>>, t: Tree, p: Path)
    requires ValidPath(t, p)
    ensures Opened(st, Before(t, p)) + [SubAt(t, p).name] == st + ([t.name] + NamesTo(t, p))
    decreases |p|
  {
    if p != [] {
      var c := t.children[p[0]];
      var o, ps, kids := [Open(t.name)], FlattenProps(t.props), FlattenAll(t.children[..p[0]]);
      OpenedAppend(st, o + ps + kids, Before(c, p[1..]));
      OpenedAppend(st, o + ps, kids);
      OpenedAppend(st, o, ps);
      OpenedOne(st, Open(t.name));
      OpenedProps(st + [t.name], t.props);
      OpenedForest(st + [t.name], t.children[..p[0]]);
      OpenedBefore(st + [t.name], c, p[1..]);
    }
  }

  lemma TurnReads(s: seq<byte>, st: seq<seq<byte>>, tok: Token)
    requires ReadOne(s, tok).Read?
    ensures Opened(st, ReadOne(s, tok).entries) == if tok.Begin? then st + [tok.name]
      else if tok.EndNode? && st != [] then st[..|st| - 1] else st
  {
    var x := ReadOne(s, tok).entries;
    if x != [] { OpenedOne(st, x[0]); }
  }

  lemma ReadLast(s: seq<byte>, toks: seq<Token>, i: int)
    requires 0 < i <= |toks|
    ensures ReadToks(s, toks[..i]) == Join(ReadToks(s, toks[..i - 1]), ReadOne(s, toks[i - 1]))
  {
    assert toks[..i] == toks[..i - 1] + [toks[i - 1]];
    ReadAppend(s, toks[..i - 1], [toks[i - 1]]);
    ReadSingle(s, toks[i - 1]);
  }

  lemma ReadSingle(s: seq<byte>, tok: Token)
    ensures ReadToks(s, [tok]) == ReadOne(s, tok)
  {
    var x := ReadOne(s, tok);
    assert [tok][1..] == [];
    assert x.Read? ==> x.entries + [] == x.entries;
  }

  /** The stack of tokens is the stack of what they read as. */
  lemma {:induction false} StackReads(s: seq<byte>, toks: seq<Token>, i: int)
    requires 0 <= i <= |toks| && ReadToks(s, toks[..i]).Read?
    ensures Stack(toks, i) == Opened([], ReadToks(s, toks[..i]).entries)
  {
    if i > 0 {
      ReadLast(s, toks, i);
      StackReads(s, toks, i - 1);
      OpenedAppend([], ReadToks(s, toks[..i - 1]).entries, ReadOne(s, toks[i - 1]).entries);
      TurnReads(s, Stack(toks, i - 1), toks[i - 1]);
    }
  }

  lemma NodeStack(s: seq<byte>, toks: seq<Token>, i: int, t: Tree, p: Path)
    requires NodeAt(s, toks, i, t, p)
    ensures Stack(toks, i + 1) == [t.name] + NamesTo(t, p)
  {
    StackReads(s, toks, i);
    NodeBody(s, toks, i, t, p);
    OpenedBefore([], t, p);
    assert [] + ([t.name] + NamesTo(t, p)) == [t.name] + NamesTo(t, p);
  }

  /** Up to its end a node stays open. */
  lemma {:induction false} OpenUpTo(toks: seq<Token>, j: int, d: int, k: int)
    requires 0 <= j <= k < |toks| && k < EndFrom(toks, j, d) && d >= 1
    ensures d + Depth(toks, k) - Depth(toks, j) >= 1
    decreases k - j
  {
    if j < k {
      assert Depth(toks, j + 1) == Depth(toks, j) + Delta(toks[j]);
      OpenUpTo(toks, j + 1, d + Delta(toks[j]), k);
    }
  }

  /** A node of the tree lies inside the root. */
  lemma NodeInside(s: seq<byte>, toks: seq<Token>, i: int, t: Tree, p: Path)
    requires NodeAt(s, toks, 0, t, []) && NodeAt(s, toks, i, t, p)
    ensures InsideRoot(toks, i)
  {
    var e := NodeSegment(s, toks, 0, t, []);
    if i >= e {
      NothingBehind(s, toks, e, i);
    }
    forall k | 0 < k <= i
      ensures Depth(toks, k) >= 1
    {
      assert Depth(toks, 1) == Depth(toks, 0) + Delta(toks[0]);
      OpenUpTo(toks, 1, 1, k);
    }
  }

  /** Tokens that read as nothing hold no node. */
  lemma {:induction false} NothingBehind(s: seq<byte>, toks: seq<Token>, e: int, i: int)
    requires 0 <= e <= i < |toks| && ReadToks(s, toks[e..]) == Read([])
    ensures !toks[i].Begin?
    decreases i - e
  {
    var rest := ReadRest(s, toks, e);
    EndSimStep(s, toks, e, 1, [], rest);
    if e < i { NothingBehind(s, toks, e + 1, i); }
  }

  lemma {:induction false} SlashedJoined(names: seq<seq<byte>>)
    ensures Slashed([[]] + names) == Joined(names) + [SLASH]
    decreases |names|
  {
    var all := [[]] + names;
    if names == [] {
      assert all[..|all| - 1] == [] && all[|all| - 1] == [];
    } else {
      var m, n := names[..|names| - 1], names[|names| - 1];
      assert all[..|all| - 1] == [[]] + m && all[|all| - 1] == n;
      SlashedJoined(m);
      assert names == m + [n];
      JoinedMore(m, n);
    }
  }

  lemma {:induction false} JoinedMore(names: seq<seq<byte>>, n: seq<byte>)
    ensures Joined(names + [n]) == Joined(names) + ([SLASH] + n)
  {
    if names == [] {
      assert names + [n] == [n] && [n][1..] == [];
      assert Joined([n]) == [SLASH] + n + Joined([]);
    } else {
      assert (names + [n])[0] == names[0] && (names + [n])[1..] == names[1..] + [n];
      JoinedMore(names[1..], n);
    }
  }

  /** What fdt_get_path leaves in the buffer is the text of the path. */
  lemma PathOfStack(names: seq<seq<byte>>)
    ensures Trimmed(Slashed([[]] + names)) == PathText(names)
    ensures |PathText(names)| >= 1 && |Slashed([[]] + names)| == if names == [] then 1 else |PathText(names)| + 1
  {
    SlashedJoined(names);
    assert (Joined(names) + [SLASH])[..|Joined(names)|] == Joined(names);
    assert names == [] ==> Joined(names) + [SLASH] == [SLASH];
  }

  /** fdt_get_path for the node at p of a tree: it succeeds exactly when the text
      and its NUL fit, and leaves them in the buffer. */
  method GetPathOf(b: Block, node: int, buf: array<byte>, ghost s: seq<byte>, ghost toks: seq<Token>, ghost i: int,
      ghost t: Tree, ghost p: Path)
      returns (r: int)
    requires Run(b, toks) && NodeAt(s, toks, 0, t, []) && NodeAt(s, toks, i, t, p) && SlashFreeNodes(toks)
    requires t.name == [] && node == Off(toks, i)
    modifies buf
    ensures var text := PathText(NamesTo(t, p));
      && r == (if |text| + 1 <= buf.Length then 0 else -ERR_NOSPACE)
      && (r == 0 ==> buf[..|text| + 1] == text + [0])
  {
    NodeInside(s, toks, i, t, p);
    NodeStack(s, toks, i, t, p);
    PathOfStack(NamesTo(t, p));
    r := FdtGetPath(b, node, buf, toks, i);
  }

  lemma {:induction false} StackNoNul(b: Block, toks: seq<Token>, i: int)
    requires Run(b, toks) && 0 <= i <= |toks|
    ensures forall k :: 0 <= k < |Stack(toks, i)| ==> NoNul(Stack(toks, i)[k])
  {
    if i > 0 {
      StackNoNul(b, toks, i - 1);
      RunHolds(b, toks, i - 1);
      HoldsIs(b, Off(toks, i - 1), toks[i - 1]);
    }
  }

  lemma {:induction false} JoinedNoNul(names: seq<seq<byte>>)
    requires forall k :: 0 <= k < |names| ==> NoNul(names[k])
    ensures NoNul(Joined(names))
  {
    if names != [] {
      JoinedNoNul(names[1..]);
      assert NoNul(names[0]);
    }
  }

  lemma TextNoNul(b: Block, s: seq<byte>, toks: seq<Token>, i: int, t: Tree, p: Path)
    requires Run(b, toks) && NodeAt(s, toks, i, t, p)
    ensures NoNul(PathText(NamesTo(t, p)))
  {
    var names := NamesTo(t, p);
    NodeStack(s, toks, i, t, p);
    StackNoNul(b, toks, i + 1);
    forall k | 0 <= k < |names|
      ensures NoNul(names[k])
    {
      assert names[k] == Stack(toks, i + 1)[k + 1];
    }
    JoinedNoNul(names);
  }

  /** From a node to its path and back to the node. */
  method PathRoundTrip(b: Block, node: int, buf: array<byte>, ghost s: seq<byte>, ghost toks: seq<Token>, ghost i: int,
      ghost t: Tree, ghost p: Path)
      returns (r: int, offset: int)
    requires Run(b, toks) && NodeAt(s, toks, 0, t, []) && NodeAt(s, toks, i, t, p) && SlashFreeNodes(toks)
    requires t.name == [] && node == Off(toks, i)
    requires Unambiguous(t, p) && PathNames(NamesTo(t, p))
    modifies buf
    ensures r == (if |PathText(NamesTo(t, p))| + 1 <= buf.Length then 0 else -ERR_NOSPACE)
    ensures r == 0 ==> offset == node
  {
    offset := -1;
    r := GetPathOf(b, node, buf, s, toks, i, t, p);
    if r == 0 {
      ghost var text := PathText(NamesTo(t, p));
      TextNoNul(b, s, toks, i, t, p);
      TextBack(NamesTo(t, p));
      PathFinds(b, s, toks, i, t, p);
      var n := TextLength(buf, text);
      offset := FdtPathOffset(b, buf[..n]);
    }
  }

  lemma FirstNul(text: seq<byte>, n: int)
    requires NoNul(text) && 0 <= n <= |text| && (text + [0])[n] == 0
    ensures n == |text|
  {
  }

  /** strlen (lib/mylib/string/string.c:48-52). */
  method TextLength(buf: array<byte>, ghost text: seq<byte>) returns (n: int)
    requires |text| < buf.Length && buf[..|text| + 1] == text + [0] && NoNul(text)
    ensures n == |text| && buf[..n] == text
  {
    assert forall k {:trigger buf[k]} :: 0 <= k <= |text| ==> buf[k] == buf[..|text| + 1][k] == (text + [0])[k];
    n := 0;
    while buf[n] != 0
      invariant 0 <= n <= |text|
      decreases |text| - n
    {
      n := n + 1;
    }
    FirstNul(text, n);
    assert buf[..n] == buf[..|text| + 1][..n];
  }
}
