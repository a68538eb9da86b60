/** Paths with any number of slashes, and names without unit addresses: what
    fdt_path_offset (lib/libfdt/fdt_ro.c:252-298) finds in the tree. */
module FdtPathText {
  import opened Bytes
  import opened FdtTags
  import opened FdtStream
  import opened FdtWalk
  import opened FdtTrees
  import opened FdtSearch
  import opened FdtPath

  function Slashes(n: nat): (r: seq<byte>)
    ensures |r| == n && forall k :: 0 <= k < n ==> r[k] == SLASH
  {
    seq(n, i => SLASH)
  }

  /** The names with slashes in front, between and behind: gaps[k] of them in front
      of name k, the last ones at the end. */
  ghost function Spread(gaps: seq<nat>, names: seq<seq<byte>>): seq<byte>
    requires |gaps| == |names| + 1
    decreases |names|
  {
    Slashes(gaps[0]) + if names == [] then [] else names[0] + Spread(gaps[1..], names[1..])
  }

  /** The text is those names; between two there is at least one slash. */
  ghost predicate Spells(text: seq<byte>, gaps: seq<nat>, names: seq<seq<byte>>) {
    && |gaps| == |names| + 1 && PathNames(names) && (forall k :: 0 < k < |names| ==> gaps[k] > 0)
    && text == Spread(gaps, names)
  }

  lemma {:induction false} SkipSlashes(text: seq<byte>, p: int, n: nat)
    requires 0 <= p && p + n <= |text| && text[p..p + n] == Slashes(n)
    ensures Components(text, p) == Components(text, p + n)
    decreases n
  {
    if n > 0 {
      assert text[p] == text[p..p + n][0];
      assert text[p + 1..p + 1 + (n - 1)] == text[p..p + n][1..] == Slashes(n - 1);
      SkipSlashes(text, p + 1, n - 1);
    }
  }

  /** However many slashes there are, splitting gives the names. */
  lemma {:induction false} SpreadBack(text: seq<byte>, p: int, gaps: seq<nat>, names: seq<seq<byte>>)
    requires 0 <= p <= |text| && Spells(text[p..], gaps, names)
    ensures Components(text, p) == names
    decreases |names|
  {
    if names == [] {
      OnlyGap(text, p, gaps);
    } else {
      var q := p + gaps[0];
      GapFirst(text, p, gaps[0], names[0] + Spread(gaps[1..], names[1..]));
      LaterGaps(gaps, names);
      OneName(text, q, gaps[1..], names);
      SpreadBack(text, q + |names[0]|, gaps[1..], names[1..]);
      FirstAndRest(Components(text, p), Components(text, q + |names[0]|), names);
    }
  }

  lemma FirstAndRest(all: seq<seq<byte>>, rest: seq<seq<byte>>, names: seq<seq<byte>>)
    requires names != [] && all == [names[0]] + rest && rest == names[1..]
    ensures all == names
  {
  }

  lemma OnlyGap(text: seq<byte>, p: int, gaps: seq<nat>)
    requires 0 <= p <= |text| && |gaps| == 1 && text[p..] == Spread(gaps, [])
    ensures Components(text, p) == []
  {
    GapFirst(text, p, gaps[0], []);
  }

  /** Slashes at p, then the rest. */
  lemma GapFirst(text: seq<byte>, p: int, n: nat, rest: seq<byte>)
    requires 0 <= p <= |text| && text[p..] == Slashes(n) + rest
    ensures p + n <= |text| && text[p + n..] == rest && Components(text, p) == Components(text, p + n)
  {
    SliceParts(text, p, Slashes(n), rest);
    SkipSlashes(text, p, n);
  }

  lemma LaterGaps(gaps: seq<nat>, names: seq<seq<byte>>)
    requires |gaps| == |names| + 1 && forall k :: 0 < k < |names| ==> gaps[k] > 0
    ensures forall k :: 0 <= k < |names| - 1 ==> gaps[1..][k] > 0
  {
  }

  lemma SliceParts(text: seq<byte>, p: int, n: seq<byte>, rest: seq<byte>)
    requires 0 <= p <= |text| && text[p..] == n + rest
    ensures p + |n| <= |text| && text[p..p + |n|] == n && text[p + |n|..] == rest
  {
    assert text[p..p + |n|] == text[p..][..|n|] == n;
    assert text[p + |n|..] == text[p..][|n|..] == rest;
  }

  /** A name at p, then slashes or the end. */
  lemma OneName(text: seq<byte>, p: int, gaps: seq<nat>, names: seq<seq<byte>>)
    requires 0 <= p <= |text| && names != [] && |gaps| == |names| && PathNames(names)
    requires forall k :: 0 <= k < |names| - 1 ==> gaps[k] > 0
    requires text[p..] == names[0] + Spread(gaps, names[1..])
    ensures p + |names[0]| <= |text| && Spells(text[p + |names[0]|..], gaps, names[1..])
    ensures Components(text, p) == [names[0]] + Components(text, p + |names[0]|)
  {
    var n, rest := names[0], Spread(gaps, names[1..]);
    SliceParts(text, p, n, rest);
    if rest != [] { FirstOfSpread(gaps, names[1..]); }
    NameThere(text, p, n, rest);
  }

  lemma NameThere(text: seq<byte>, p: int, n: seq<byte>, rest: seq<byte>)
    requires 0 <= p && p + |n| <= |text| && text[p..p + |n|] == n && text[p + |n|..] == rest && n != [] && NoSlash(n)
    requires rest != [] ==> rest[0] == SLASH
    ensures Components(text, p) == [n] + Components(text, p + |n|)
  {
    assert text[p] == text[p..p + |n|][0];
    if rest != [] { assert text[p + |n|] == rest[0]; }
    SlashAfter(text, p, n);
  }

  lemma FirstOfSpread(gaps: seq<nat>, names: seq<seq<byte>>)
    requires |gaps| == |names| + 1 && Spread(gaps, names) != [] && (names != [] ==> gaps[0] > 0)
    ensures Spread(gaps, names)[0] == SLASH
  {
  }

  lemma FirstIsName(gaps: seq<nat>, names: seq<seq<byte>>)
    requires |gaps| == |names| + 1 && names != [] && names[0] != [] && gaps[0] == 0
    ensures Spread(gaps, names) != [] && Spread(gaps, names)[0] == names[0][0]
  {
    assert Slashes(0) == [];
  }

  /** Every text says some names. */
  lemma {:induction false} EveryText(text: seq<byte>) returns (gaps: seq<nat>, names: seq<seq<byte>>)
    ensures Spells(text, gaps, names)
    decreases |text|
  {
    if text == [] {
      gaps, names := [0], [];
    } else if text[0] == SLASH {
      var gs: seq<nat>;
      gs, names := EveryText(text[1..]);
      gaps := [gs[0] + 1] + gs[1..];
      assert gaps[1..] == gs[1..];
      assert Slashes(gs[0] + 1) == [SLASH] + Slashes(gs[0]);
      assert text == [SLASH] + text[1..];
    } else {
      var q := SlashFrom(text, 0);
      var gs: seq<nat>;
      var ns: seq<seq<byte>>;
      gs, ns := EveryText(text[q..]);
      gaps, names := [0] + gs, [text[0..q]] + ns;
      assert gaps[1..] == gs && names[1..] == ns;
      assert Slashes(0) == [];
      assert text == text[0..q] + text[q..];
      SpellsFirst(text, q, gs, ns);
      forall k | 0 < k < |names|
        ensures gaps[k] > 0
      {
        assert gaps[k] == gs[k - 1];
      }
    }
  }

  /** Behind a name that ends at a slash there is at least one. */
  lemma SpellsFirst(text: seq<byte>, q: int, gs: seq<nat>, ns: seq<seq<byte>>)
    requires 0 <= q <= |text| && (q < |text| ==> text[q] == SLASH) && Spells(text[q..], gs, ns)
    ensures ns != [] ==> gs[0] > 0
  {
    if ns != [] && gs[0] == 0 { FirstIsName(gs, ns); }
  }

  /** Going down, at each name, to the first child called so. */
  ghost predicate Resolves(t: Tree, names: seq<seq<byte>>, q: Path)
    decreases |names|
  {
    |q| == |names| &&
    (names == [] ||
     (q[0] < |t.children| && FirstCalled(t.children, names[0], q[0]) && Resolves(t.children[q[0]], names[1..], q[1..])))
  }

  lemma {:induction false} ResolvesValid(t: Tree, names: seq<seq<byte>>, q: Path)
    requires Resolves(t, names, q)
    ensures ValidPath(t, q)
    decreases |names|
  {
    if names != [] { ResolvesValid(t.children[q[0]], names[1..], q[1..]); }
  }

  /** Descending by names, found or not. */
  lemma {:induction false} DescendResolves(b: Block, s: seq<byte>, toks: seq<Token>, i: int, t: Tree, p: Path,
      names: seq<seq<byte>>) returns (found: bool, q: Path, e: int)
    requires Run(b, toks) && NodeAt(s, toks, i, t, p)
    ensures found ==> Resolves(SubAt(t, p), names, q) && ValidPath(t, p + q) && NodeAt(s, toks, e, t, p + q)
    ensures found ==> Descend(b, Off(toks, i), names) == Off(toks, e)
    ensures !found ==> Descend(b, Off(toks, i), names) == -ERR_NOTFOUND && forall r :: !Resolves(SubAt(t, p), names, r)
    decreases |names|
  {
    if names == [] {
      found, q, e := true, [], i;
      assert p + q == p;
    } else {
      var u := SubAt(t, p);
      var k := FirstMatch(u.children, names[0]);
      MatchIsFirst(u.children, names[0]);
      var c := SubnodeTree(b, s, toks, i, t, p, names[0]);
      if k < 0 {
        found, q, e := false, [], 0;
      } else {
        StepDown(t, p, k);
        var r: Path;
        found, r, e := DescendResolves(b, s, toks, c, t, p + [k], names[1..]);
        q := [k] + r;
        PathOn(p, k, r);
        if !found { NoneBelow(u, names, k); }
      }
    }
  }

  lemma PathOn(p: Path, k: nat, r: Path)
    ensures p + [k] + r == p + ([k] + r) && ([k] + r)[0] == k && ([k] + r)[1..] == r
  {
  }

  lemma NoneBelow(u: Tree, names: seq<seq<byte>>, k: nat)
    requires names != [] && k < |u.children| && FirstCalled(u.children, names[0], k)
    requires forall r :: !Resolves(u.children[k], names[1..], r)
    ensures forall r :: !Resolves(u, names, r)
  {
    forall r
      ensures !Resolves(u, names, r)
    {
      if |r| == |names| && r[0] < |u.children| && FirstCalled(u.children, names[0], r[0]) {
        FirstCalledOnce(u.children, names[0], k, r[0]);
      }
    }
  }

  /** fdt_path_offset_namelen for any path that starts with a slash, on the blob of
      a tree: the node that its names lead to, FDT_ERR_NOTFOUND if they lead to
      none. */
  method FindPath(b: Block, path: seq<byte>, ghost s: seq<byte>, ghost toks: seq<Token>, ghost t: Tree)
    returns (offset: int, ghost gaps: seq<nat>, ghost names: seq<seq<byte>>, ghost q: Path, ghost e: int)
    requires |b| < U32 && Run(b, toks) && NodeAt(s, toks, 0, t, []) && path != [] && path[0] == SLASH
    ensures Spells(path, gaps, names)
    ensures if offset >= 0 then Resolves(t, names, q) && NodeAt(s, toks, e, t, q) && offset == Off(toks, e)
            else offset == -ERR_NOTFOUND && forall r :: !Resolves(t, names, r)
  {
    gaps, names := EveryText(path);
    assert path[0..] == path;
    SpreadBack(path, 0, gaps, names);
    ghost var found;
    found, q, e := DescendResolves(b, s, toks, 0, t, [], names);
    assert [] + q == q && toks[..0] == [] && SubAt(t, []) == t;
    if found { OffGrows(toks, 0, e); }
    offset := FdtPathOffset(b, path);
  }
}
