/** Adding and deleting nodes on the blob of a tree: where they go, when there is
    room, and what the blob reads as then (lib/libfdt/fdt_rw.c:354-415,
    lib/libfdt/fdt_wip.c:83-94). */
module FdtRwNodes {
  import opened Bytes
  import opened FdtTags
  import opened FdtStrings
  import opened FdtStream
  import opened FdtWalk
  import opened FdtEdit
  import opened FdtTrees
  import opened FdtLookup
  import opened FdtSearch
  import opened FdtWip
  import opened FdtRwModel
  import opened FdtRw
  import opened FdtRwTrees

  // ------------------------------------------------------------------ adding

  /** The new node in the tree. */
  lemma AddedNode(t: Tree, p: Path, name: seq<byte>)
    requires ValidPath(t, p)
    ensures var v := AddAt(t, p, name);
      && ValidPath(v, p + [0]) && SubAt(v, p + [0]) == Node(name, [], [])
      && Before(v, p + [0]) == Before(t, p) + ([Open(SubAt(t, p).name)] + FlattenProps(SubAt(t, p).props))
  {
    var u := SubAt(t, p);
    var w := u.(children := [Node(name, [], [])] + u.children);
    ReplacedAt(t, p, w);
    StepDown(AddAt(t, p, name), p, 0);
    assert w.children[..0] == [];
    assert [Open(u.name)] + FlattenProps(u.props) + [] == [Open(u.name)] + FlattenProps(u.props);
  }

  /** Splicing the node in behind the properties: the tree with it, and its token. */
  lemma AddedAt(f: Rw, g: Rw, toks: seq<Token>, i: int, t: Tree, p: Path, name: seq<byte>, k: int)
    returns (us: seq<Token>)
    requires TreeAt(f, toks, i, t, p) && NoNul(name) && k == SkipTok(toks, i + 1)
    requires Spliced(f, g, Off(toks, k), 0, NodeBytes(name))
    ensures BlobReads(g, AddAt(t, p, name))
    ensures k < |us| && Off(us, k) == Off(toks, k) && TreeAt(g, us, k, AddAt(t, p, name), p + [0])
  {
    var s, u := StringsOf(f), SubAt(t, p);
    us := toks[..k] + [Begin(name), EndNode] + toks[k..];
    RunAt(BlockOf(f), toks, i);
    SkipMatches(BlockOf(f), toks, i + 1);
    AddSubnodeTree(f, g, toks, i, t, p, name);
    NodeBytesLaid(name);
    SplicedRun(f, g, toks, k, k, NodeBytes(name), [Begin(name), EndNode]);
    RunReads(BlockOf(g), s, us);
    ReadsIs(BlockOf(g), s, Flatten(AddAt(t, p, name)));
    FrontReads(s, toks, i, t, p, k);
    AddedNode(t, p, name);
    assert us[..k] == toks[..k] && us[k] == Begin(name);
  }

  /** What is in front of the place for a new node. */
  lemma FrontReads(s: seq<byte>, toks: seq<Token>, i: int, t: Tree, p: Path, k: int)
    requires NodeAt(s, toks, i, t, p) && NoFin(toks) && k == SkipTok(toks, i + 1)
    ensures ReadToks(s, toks[..k]) == Read(Before(t, p) + ([Open(SubAt(t, p).name)] + FlattenProps(SubAt(t, p).props)))
  {
    var u := SubAt(t, p);
    NodeBody(s, toks, i, t, p);
    RestFirst(u, After(t, p));
    PieceTail(s, toks, i + 1, FlattenProps(u.props) + Rest(u, After(t, p)));
    SkipReads(s, toks, i + 1, u.props, Rest(u, After(t, p)));
    ReadUpTo(s, toks, i, t, p, k, FlattenProps(u.props));
  }

  /** The bytes that an empty node takes. */
  function NodeSize(name: seq<byte>): int { 4 + Align4(|name| + 1) + 4 }

  /** fdt_add_subnode_namelen at the node p of a tree: FDT_ERR_EXISTS if a child is
      called so, FDT_ERR_NOSPACE if there is no room, and otherwise the offset of a
      new, empty node, the first child of p. */
  method AddNode(rw: RwTree, parent: int, name: seq<byte>, ghost toks: seq<Token>, ghost i: int, ghost t: Tree,
      ghost p: Path)
    returns (r: int, ghost us: seq<Token>, ghost e: int)
    requires TreeAt(rw.View(), toks, i, t, p) && parent == Off(toks, i) && NoNul(name)
    modifies rw, rw.buf
    ensures r == -ERR_EXISTS <==>
      exists c :: 0 <= c < |SubAt(t, p).children| && Called(SubAt(t, p).children[c].name, name)
    ensures (forall c :: 0 <= c < |SubAt(t, p).children| ==> !Called(SubAt(t, p).children[c].name, name)) ==>
      if DataSize(old(rw.View())) + NodeSize(name) > old(rw.View()).totalsize then r == -ERR_NOSPACE else r >= 0
    ensures r < 0 ==> rw.View() == old(rw.View())
    ensures r >= 0 ==> BlobReads(rw.View(), AddAt(t, p, name))
    ensures r >= 0 ==> TreeAt(rw.View(), us, e, AddAt(t, p, name), p + [0]) && r == Off(us, e)
  {
    ghost var f, k := rw.View(), FirstMatch(SubAt(t, p).children, name);
    us, e := toks, SkipTok(toks, i + 1);
    ghost var c := SubnodeTree(BlockOf(f), StringsOf(f), toks, i, t, p, name);
    MatchIsFirst(SubAt(t, p).children, name);
    RunAt(BlockOf(f), toks, i);
    SkipMatches(BlockOf(f), toks, i + 1);
    OffGrows(toks, 0, i);
    r := rw.AddSubnode(parent, name);
    if r >= 0 {
      us := AddedAt(f, rw.View(), toks, i, t, p, name, e);
    }
  }

  // ---------------------------------------------------------------- deleting

  /** fdt_del_node at a node of a tree other than the root. */
  method DeleteNode(rw: RwTree, node: int, ghost toks: seq<Token>, ghost i: int, ghost t: Tree, ghost p: Path)
    returns (r: int)
    requires TreeAt(rw.View(), toks, i, t, p) && node == Off(toks, i) && p != []
    modifies rw, rw.buf
    ensures r == 0 && BlobReads(rw.View(), RemoveAt(t, p))
  {
    ghost var f := rw.View();
    ghost var e := DelNodeTree(f, toks, i, t, p);
    OffGrows(toks, i, e);
    r := rw.DelNode(node);
  }

  /** fdt_nop_node at such a node: the same tree, and nothing moves. */
  method NopNode(mem: array<byte>, offStruct: int, sizeStruct: int, node: int, ghost s: seq<byte>,
      ghost toks: seq<Token>, ghost i: int, ghost t: Tree, ghost p: Path)
    returns (r: int)
    requires 0 <= offStruct && 0 <= sizeStruct && offStruct + sizeStruct <= mem.Length
    requires Run(mem[..][offStruct..offStruct + sizeStruct], toks) && NodeAt(s, toks, i, t, p) && p != []
    requires node == Off(toks, i)
    modifies mem
    ensures r == 0 && Reads(mem[..][offStruct..offStruct + sizeStruct], s, Flatten(RemoveAt(t, p)))
  {
    ghost var b := mem[..][offStruct..offStruct + sizeStruct];
    ghost var e := NopNodeTree(b, s, toks, i, t, p);
    OffGrows(toks, 0, e);
    r := FdtNopNode(mem, offStruct, sizeStruct, node);
    ReadsIs(mem[..][offStruct..offStruct + sizeStruct], s, Flatten(RemoveAt(t, p)));
  }
}
