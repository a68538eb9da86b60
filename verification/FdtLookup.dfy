/** Finding properties and subnodes by name (lib/libfdt/fdt_ro.c). */
module FdtLookup {
  import opened Bytes
  import opened FdtTags
  import opened FdtStrings
  import opened FdtStream
  import opened FdtWalk

  // -------------------------------------------------------------- properties

  /** fdt_check_prop_offset_ (lib/libfdt/fdt.c:243-253). */
  function CheckProp(b: Block, o: int): int {
    if o < 0 || o % 4 != 0 || NextTag(b, o).0 != PROP then -ERR_BADOFFSET else NextTag(b, o).1
  }

  /** nextprop_ (lines 203-225). */
  function NextProp(b: Block, o: int): (r: int)
    ensures r >= 0 ==> o <= r && NextTag(b, r).0 == PROP
    decreases |b| - o
  {
    var (tag, next) := NextTag(b, o);
    if tag == END then if next >= 0 then -ERR_BADSTRUCTURE else next
    else if tag == PROP then o
    else if tag == NOP then NextProp(b, next)
    else -ERR_NOTFOUND
  }

  /** fdt_first_property_offset and fdt_next_property_offset (lines 343-359). */
  function FirstProp(b: Block, node: int): int {
    if CheckNode(b, node) < 0 then CheckNode(b, node) else NextProp(b, CheckNode(b, node))
  }

  function PropAfter(b: Block, o: int): (r: int)
    ensures r >= 0 ==> o + 4 <= |b| && o + 4 <= r && NextTag(b, r).0 == PROP
  {
    if CheckProp(b, o) < 0 then CheckProp(b, o) else NextProp(b, CheckProp(b, o))
  }

  /** fdt_string_eq_ (lines 105-112) on the name of the property at o. */
  predicate PropNamed(b: Block, s: seq<byte>, o: int, name: seq<byte>)
    requires NextTag(b, o).0 == PROP
  {
    GetString(s, TokenAt(b, o).nameoff) == Text(name)
  }

  /** The loop of fdt_get_property_namelen_ (lines 406-426) from a property. */
  function FindProp(b: Block, s: seq<byte>, o: int, name: seq<byte>): (r: int)
    requires o >= 0 ==> NextTag(b, o).0 == PROP
    ensures r >= 0 ==> NextTag(b, r).0 == PROP
    decreases |b| - o
  {
    if o < 0 then o else if PropNamed(b, s, o, name) then o
    else if PropAfter(b, o) < 0 then PropAfter(b, o)
    else FindProp(b, s, PropAfter(b, o), name)
  }

  /** The offset of the property, or why there is none. */
  function GetProp(b: Block, s: seq<byte>, node: int, name: seq<byte>): (r: int)
    ensures r >= 0 ==> NextTag(b, r).0 == PROP
  {
    FindProp(b, s, FirstProp(b, node), name)
  }

  lemma {:induction false} NextPropAligned(b: Block, o: int)
    requires o % 4 == 0 && NextProp(b, o) >= 0
    ensures NextProp(b, o) % 4 == 0
    decreases |b| - o
  {
    var (tag, next) := NextTag(b, o);
    if tag == NOP {
      NextAligned(b, o);
      NextPropAligned(b, next);
    }
  }

  lemma {:induction false} FindPropAligned(b: Block, s: seq<byte>, o: int, name: seq<byte>)
    requires o >= 0 && o % 4 == 0 && NextTag(b, o).0 == PROP && FindProp(b, s, o, name) >= 0
    ensures FindProp(b, s, o, name) % 4 == 0
    decreases |b| - o
  {
    if !PropNamed(b, s, o, name) && PropAfter(b, o) >= 0 {
      NextAligned(b, o);
      NextPropAligned(b, CheckProp(b, o));
      FindPropAligned(b, s, PropAfter(b, o), name);
    }
  }

  /** Properties are found on word boundaries. */
  lemma GetPropAligned(b: Block, s: seq<byte>, node: int, name: seq<byte>)
    requires GetProp(b, s, node, name) >= 0
    ensures GetProp(b, s, node, name) % 4 == 0
  {
    NextAligned(b, node);
    NextPropAligned(b, CheckNode(b, node));
    FindPropAligned(b, s, FirstProp(b, node), name);
  }

  method FdtGetProp(b: Block, s: seq<byte>, node: int, name: seq<byte>) returns (offset: int)
    ensures offset == GetProp(b, s, node, name)
  {
    offset := FirstProp(b, node);
    while offset >= 0
      invariant offset >= 0 ==> NextTag(b, offset).0 == PROP
      invariant GetProp(b, s, node, name) == FindProp(b, s, offset, name)
      decreases if offset < 0 then 0 else if offset > |b| then 1 else 2 + |b| - offset
    {
      if PropNamed(b, s, offset, name) {
        return;
      }
      offset := PropAfter(b, offset);
    }
  }

  /** The same search on tokens, from token j: the index, -1 behind the last
      property of the node, -2 at the end of the block. */
  function FindTok(s: seq<byte>, toks: seq<Token>, j: int, name: seq<byte>): (k: int)
    requires 0 <= j <= |toks|
    ensures k >= 0 ==> j <= k < |toks| && toks[k].Prop? && GetString(s, toks[k].nameoff) == Text(name)
    decreases |toks| - j
  {
    if j == |toks| then -2
    else if toks[j].Prop? && GetString(s, toks[j].nameoff) == Text(name) then j
    else if toks[j].Prop? || toks[j].Nop? then FindTok(s, toks, j + 1, name)
    else -1
  }

  function FoundOffset(toks: seq<Token>, k: int): int
    requires k < |toks|
  {
    if k >= 0 then Off(toks, k) else if k == -1 then -ERR_NOTFOUND else -ERR_BADSTRUCTURE
  }

  /** The search over the properties that start at or after token j. */
  function FindFrom(b: Block, s: seq<byte>, o: int, name: seq<byte>): int {
    FindProp(b, s, NextProp(b, o), name)
  }

  lemma FindFromNop(b: Block, s: seq<byte>, o: int, name: seq<byte>)
    requires NextTag(b, o).0 == NOP
    ensures FindFrom(b, s, o, name) == FindFrom(b, s, NextTag(b, o).1, name)
  {
  }

  lemma FindFromProp(b: Block, s: seq<byte>, o: int, name: seq<byte>)
    requires NextTag(b, o).0 == PROP && o >= 0 && o % 4 == 0
    ensures FindFrom(b, s, o, name) == if PropNamed(b, s, o, name) then o else FindFrom(b, s, NextTag(b, o).1, name)
  {
    assert NextProp(b, o) == o;
    assert CheckProp(b, o) == NextTag(b, o).1 >= 0;
  }

  lemma {:induction false} FindMatches(b: Block, s: seq<byte>, toks: seq<Token>, j: int, name: seq<byte>)
    requires Run(b, toks) && 0 <= j <= |toks|
    ensures FindFrom(b, s, Off(toks, j), name) == FoundOffset(toks, FindTok(s, toks, j, name))
    decreases |toks| - j
  {
    if j == |toks| {
      RunAtEnd(b, toks);
    } else {
      RunAt(b, toks, j);
      OffGrows(toks, 0, j);
      if toks[j].Prop? {
        FindFromProp(b, s, Off(toks, j), name);
        if GetString(s, toks[j].nameoff) != Text(name) { FindMatches(b, s, toks, j + 1, name); }
      } else if toks[j].Nop? {
        FindFromNop(b, s, Off(toks, j), name);
        FindMatches(b, s, toks, j + 1, name);
      }
    }
  }

  /** fdt_get_property finds the first property of the node with that name. */
  lemma GetPropFinds(b: Block, s: seq<byte>, toks: seq<Token>, i: int, name: seq<byte>)
    requires Run(b, toks) && 0 <= i < |toks| && toks[i].Begin?
    ensures GetProp(b, s, Off(toks, i), name) == FoundOffset(toks, FindTok(s, toks, i + 1, name))
  {
    RunAt(b, toks, i);
    OffGrows(toks, i, i + 1);
    OffGrows(toks, 0, i);
    FindMatches(b, s, toks, i + 1, name);
  }

  // --------------------------------------------------------------- subnodes

  const AT_SIGN: byte := 64

  /** fdt_nodename_eq_ (lines 13-32): the name given may leave out the unit
      address of the node. */
  predicate NameMatches(full: seq<byte>, name: seq<byte>) {
    && |name| <= |full| && full[..|name|] == name
    && (|full| == |name| || (AT_SIGN !in name && full[|name|] == AT_SIGN))
  }

  predicate NodeNamed(b: Block, o: int, name: seq<byte>) {
    CheckNode(b, o) >= 0 && NameMatches(TokenAt(b, o).name, name)
  }

  /** The loop of fdt_subnode_offset_namelen (lines 234-243). */
  function Subnode(b: Block, offset: int, depth: int, name: seq<byte>): int
    decreases |b| - offset
  {
    if depth < 0 then -ERR_NOTFOUND
    else if offset < 0 then offset
    else if depth == 1 && NodeNamed(b, offset, name) then offset
    else
      var (o, d) := NextNode(b, offset, depth);
      if d < 0 then -ERR_NOTFOUND else if o < 0 then o else Subnode(b, o, d, name)
  }

  method FdtSubnode(b: Block, parent: int, name: seq<byte>) returns (offset: int)
    requires |b| < U32
    ensures offset == Subnode(b, parent, 0, name)
  {
    offset := parent;
    var depth := 0;
    while offset >= 0 && depth >= 0
      invariant Subnode(b, parent, 0, name) == Subnode(b, offset, depth, name)
      decreases if offset < 0 then 0 else if offset > |b| then 1 else 2 + |b| - offset
    {
      if depth == 1 && NodeNamed(b, offset, name) {
        return;
      }
      offset, depth := FdtNextNode(b, offset, depth);
    }
    if depth < 0 {
      return -ERR_NOTFOUND;
    }
  }
}
