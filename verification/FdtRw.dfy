/** Read-write editing as an object: fdt_splice_, fdt_add_subnode_namelen,
    fdt_del_node and fdt_setprop_namelen of lib/libfdt/fdt_rw.c. */
module FdtRw {
  import opened Bytes
  import opened FdtTags
  import opened FdtStrings
  import opened FdtStream
  import opened FdtWalk
  import opened FdtEdit
  import opened FdtLookup
  import opened FdtRwModel
  import opened FdtSw
  import opened FdtWip
  import opened MemOps

  // -------------------------------------------------- places in the block

  /** Behind the properties of a node (lines 377-380): the first tag from o on
      that is neither FDT_PROP nor FDT_NOP. */
  function SkipProps(b: Block, o: int): (r: int)
    ensures r >= o
    decreases |b| - o
  {
    var (tag, next) := NextTag(b, o);
    if tag == PROP || tag == NOP then SkipProps(b, next) else o
  }

  /** The loop that finds that place. */
  method FdtSkipProps(b: Block, start: int) returns (offset: int)
    requires |b| < U32 && start >= 0
    ensures offset == SkipProps(b, start)
  {
    var tag, next;
    offset := start;
    tag, next := FdtNextTag(b, offset);
    while tag == PROP || tag == NOP
      invariant SkipProps(b, start) == SkipProps(b, offset) && (tag, next) == NextTag(b, offset)
      decreases |b| - offset
    {
      offset := next;
      tag, next := FdtNextTag(b, offset);
    }
  }

  /** Where a walk gets on, there is room for that tag. */
  lemma {:induction false} SkipBound(b: Block, o: int, d: int)
    requires 0 <= o && o % 4 == 0 && (WalkNode(b, o, d).0 >= 0 || WalkNode(b, o, d).0 == -ERR_NOTFOUND)
    ensures SkipProps(b, o) + 4 <= |b| && SkipProps(b, o) % 4 == 0
    decreases |b| - o
  {
    var (tag, next) := NextTag(b, o);
    if tag == PROP || tag == NOP {
      NextAligned(b, o);
      SkipBound(b, next, d);
    }
  }

  /** A parent whose subnodes have been looked through. */
  lemma ParentSkips(b: Block, parent: int, name: seq<byte>)
    requires Subnode(b, parent, 0, name) == -ERR_NOTFOUND && parent >= 0
    ensures CheckNode(b, parent) >= 0
    ensures SkipProps(b, CheckNode(b, parent)) + 4 <= |b| && SkipProps(b, CheckNode(b, parent)) % 4 == 0
  {
    CheckNodeAligned(b, parent);
    SkipBound(b, CheckNode(b, parent), 0);
  }

  /** Where a lookup has found no property, there is room behind the node's tag. */
  lemma MissingProp(b: Block, s: seq<byte>, node: int, name: seq<byte>)
    requires GetProp(b, s, node, name) == -ERR_NOTFOUND
    ensures node >= 0 && CheckNode(b, node) >= 0 && CheckNode(b, node) + 4 <= |b| && CheckNode(b, node) % 4 == 0
  {
    if CheckNode(b, node) >= 0 {
      CheckNodeAligned(b, node);
    }
  }

  // -------------------------------------------------------- bytes of a node

  function Zeros(n: nat): (z: seq<byte>)
    ensures |z| == n
  {
    seq(n, i => 0)
  }

  /** An empty node as fdt_add_subnode_namelen writes it (lines 389-393). */
  function NodeBytes(name: seq<byte>): (n: seq<byte>)
    ensures |n| == Size(Begin(name)) + 4
  {
    NodeHead(name) + Word(END_NODE)
  }

  lemma NodeBytesHold(name: seq<byte>)
    requires NoNul(name)
    ensures Holds(NodeBytes(name), 0, Begin(name)) && Holds(NodeBytes(name), Size(Begin(name)), EndNode)
  {
    var n, k := NodeBytes(name), Size(Begin(name));
    AlignUp(|name| + 1);
    WordReads(BEGIN_NODE);
    WordReads(END_NODE);
    assert n[0..4] == Word(BEGIN_NODE)[0..4] && n[k..k + 4] == Word(END_NODE)[0..4];
    SameWord(n, Word(BEGIN_NODE), 0, 0);
    SameWord(n, Word(END_NODE), k, 0);
    assert n[4..4 + |name|] == name && n[4 + |name|] == 0;
    HoldsIs(n, 0, Begin(name));
    HoldsIs(n, k, EndNode);
  }

  lemma NodeBytesLaid(name: seq<byte>)
    requires NoNul(name)
    ensures Laid(NodeBytes(name), 0, [Begin(name), EndNode]) && SizeAll([Begin(name), EndNode]) == |NodeBytes(name)|
  {
    var n, ts := NodeBytes(name), [Begin(name), EndNode];
    NodeBytesHold(name);
    assert ts[1..] == [EndNode];
    LaidOne(n, Size(Begin(name)), EndNode);
    LaidCons(n, 0, ts);
    assert SizeAll([EndNode]) == 4;
  }

  /** Tag, zeros and name; then the closing tag. */
  function NodeHead(name: seq<byte>): (h: seq<byte>)
    ensures |h| == Size(Begin(name))
  {
    AlignUp(|name| + 1);
    Word(BEGIN_NODE) + Overwrite(Zeros(Align4(|name| + 1)), 0, name)
  }

  lemma HeadWritten(c: seq<byte>, p: int, name: seq<byte>, k: int)
    requires 0 <= p && k == Align4(|name| + 1) && |name| < k && p + 4 + k <= |c|
    ensures Overwrite(Overwrite(Overwrite(c, p, Word(BEGIN_NODE)), p + 4, Zeros(k)), p + 4, name)
      == Overwrite(c, p, NodeHead(name))
  {
    var w := Word(BEGIN_NODE);
    OverwriteMore(c, p, w, Zeros(k));
    OverwriteWithin(c, p, w + Zeros(k), 4, name);
    assert Overwrite(w + Zeros(k), 4, name) == w + Overwrite(Zeros(k), 0, name);
  }

  /** The memmove of fdt_splice_ (line 71). */
  method Shift(buf: array<byte>, p: int, x: int, y: int, size: int)
    requires 0 <= p && 0 <= x && 0 <= y && p + x <= size <= buf.Length && size - x + y <= buf.Length
    modifies buf
    ensures Opened(old(buf[..]), buf[..], p, x, y, size)
  {
    ghost var was := buf[..];
    Memmove(buf, p + y, p + x, size - (p + x));
    MoveOpens(was, buf[..], p, x, y, size);
  }

  // ------------------------------------------------------------- the object

  class RwTree {
    const buf: array<byte>
    var totalsize: int
    const offRsv: int
    var offStruct: int
    var sizeStruct: int
    var offStrings: int
    var sizeStrings: int

    ghost function View(): Rw
      reads this, buf
    {
      Rw(totalsize, offRsv, offStruct, sizeStruct, offStrings, sizeStrings, buf[..])
    }

    /** A finished blob of version 17 in memory. */
    constructor (b: array<byte>, total: int, rsv: int, struct_: int, structSize: int, strings_: int, stringsSize: int)
      requires 0 <= struct_ && 0 <= structSize && 0 <= strings_ && 0 <= stringsSize && total <= b.Length <= INT_MAX
      ensures View() == Rw(total, rsv, struct_, structSize, strings_, stringsSize, b[..]) && buf == b
      ensures InMemory(View())
    {
      buf := b;
      totalsize, offRsv, offStruct, sizeStruct, offStrings, sizeStrings := total, rsv, struct_, structSize, strings_,
        stringsSize;
    }

    function Misplaced(): (m: bool)
      reads this
      ensures m == Misordered(Rw(totalsize, offRsv, offStruct, sizeStruct, offStrings, sizeStrings, []))
    {
      || offRsv < 40 || offStruct < offRsv + 16
      || offStrings < offStruct + sizeStruct || totalsize < offStrings + sizeStrings
    }

    function Block(): (b: seq<byte>)
      requires Ordered(View())
      reads this, buf
      ensures b == BlockOf(View())
    {
      buf[offStruct..offStruct + sizeStruct]
    }

    function Strings(): (s: seq<byte>)
      requires Ordered(View())
      reads this, buf
      ensures s == StringsOf(View())
    {
      buf[offStrings..offStrings + sizeStrings]
    }

    /** fdt_splice_ (lines 59-73) at the absolute offset p. */
    method Splice(p: int, oldlen: int, newlen: int) returns (err: int)
      requires Ordered(View()) && 0 <= newlen
      modifies buf
      ensures err == if p < 0 || oldlen < 0 || p + oldlen > DataSize(View()) then -ERR_BADOFFSET
                     else if DataSize(View()) - oldlen + newlen > totalsize then -ERR_NOSPACE else 0
      ensures err != 0 ==> buf[..] == old(buf[..])
      ensures err == 0 ==> Opened(old(buf[..]), buf[..], p, oldlen, newlen, DataSize(View()))
    {
      var dsize := offStrings + sizeStrings;
      if p < 0 || oldlen < 0 || p + oldlen > dsize {
        return -ERR_BADOFFSET;
      }
      if dsize - oldlen + newlen > totalsize {
        return -ERR_NOSPACE;
      }
      Shift(buf, p, oldlen, newlen, dsize);
      return 0;
    }

    /** fdt_splice_struct_ (lines 88-100) at offset o of the structure block. */
    method SpliceStruct(o: int, oldlen: int, newlen: int) returns (err: int)
      requires Ordered(View()) && 0 <= o && 0 <= oldlen && 0 <= newlen && o + oldlen <= sizeStruct
      modifies this`sizeStruct, this`offStrings, buf
      ensures err == if DataSize(old(View())) - oldlen + newlen > totalsize then -ERR_NOSPACE else 0
      ensures err != 0 ==> View() == old(View())
      ensures err == 0 ==>
        sizeStruct == old(sizeStruct) - oldlen + newlen && offStrings == old(offStrings) - oldlen + newlen
      ensures err == 0 ==> Opened(old(buf[..]), buf[..], offStruct + o, oldlen, newlen, DataSize(old(View())))
    {
      err := Splice(offStruct + o, oldlen, newlen);
      if err != 0 {
        return;
      }
      sizeStruct := sizeStruct - oldlen + newlen;
      offStrings := offStrings - oldlen + newlen;
    }

    // -------------------------------------------------------------- nodes

    /** fdt_splice_struct_ with nothing new, which always fits. */
    method Cut(o: int, x: int)
      requires Ordered(View()) && 0 <= o && 0 <= x && o + x <= sizeStruct
      modifies this`sizeStruct, this`offStrings, buf
      ensures Spliced(old(View()), View(), o, x, [])
    {
      ghost var f := View();
      var err := SpliceStruct(o, x, 0);
      OpenedSplices(f, View(), o, x, 0);
      assert buf[..][offStruct + o..offStruct + o] == [];
    }

    /** fdt_del_node (lines 403-415): the bytes of the node go. */
    method DelNode(node: int) returns (r: int)
      requires InMemory(View())
      modifies this`sizeStruct, this`offStrings, buf
      ensures Misordered(old(View())) ==> r == -ERR_BADLAYOUT && View() == old(View())
      ensures !Misordered(old(View())) ==>
                var e := NodeEnd(BlockOf(old(View())), node, 0);
                if e < 0 then r == e && View() == old(View())
                  else r == 0 && Spliced(old(View()), View(), node, e - node, [])
    {
      if Misplaced() {
        return -ERR_BADLAYOUT;
      }
      var e := FdtNodeEnd(Block(), node);
      if e < 0 {
        return e;
      }
      NodeEndBound(Block(), node, 0);
      Cut(node, e - node);
      return 0;
    }

    method PutHead(p: int, name: seq<byte>)
      requires 0 <= p && p + |NodeHead(name)| <= buf.Length
      modifies buf
      ensures buf[..] == Overwrite(old(buf[..]), p, NodeHead(name))
    {
      var k := Align4(|name| + 1);
      AlignUp(|name| + 1);
      HeadWritten(buf[..], p, name, k);
      Memcpy(buf, p, Word(BEGIN_NODE));
      Memset(buf, p + 4, 0, k);
      Memcpy(buf, p + 4, name);
    }

    /** Writing an empty node into the gap (lines 389-393). */
    method PutNode(p: int, name: seq<byte>)
      requires 0 <= p && p + |NodeBytes(name)| <= buf.Length
      modifies buf
      ensures buf[..] == Overwrite(old(buf[..]), p, NodeBytes(name))
    {
      OverwriteMore(buf[..], p, NodeHead(name), Word(END_NODE));
      PutHead(p, name);
      Memcpy(buf, p + 4 + Align4(|name| + 1), Word(END_NODE));
    }

    /** An empty node at o (lines 382-393). */
    method InsertNode(o: int, name: seq<byte>) returns (err: int)
      requires Ordered(View()) && 0 <= o <= sizeStruct
      modifies this`sizeStruct, this`offStrings, buf
      ensures err == if DataSize(old(View())) + |NodeBytes(name)| > totalsize then -ERR_NOSPACE else 0
      ensures err != 0 ==> View() == old(View())
      ensures err == 0 ==> Spliced(old(View()), View(), o, 0, NodeBytes(name))
    {
      ghost var f := View();
      var y := 4 + Align4(|name| + 1) + 4;
      err := SpliceStruct(o, 0, y);
      if err != 0 {
        return;
      }
      ghost var c, p := buf[..], offStruct + o;
      PutNode(offStruct + o, name);
      OpenedWrite(f.bytes, c, buf[..], p, 0, y, DataSize(f), p, NodeBytes(name));
      OverwriteInside(c, p, NodeBytes(name));
      OpenedSplices(f, View(), o, 0, y);
    }

    /** fdt_add_subnode_namelen (lines 354-396): the new node comes behind the
        properties of the parent. */
    method AddSubnode(parent: int, name: seq<byte>) returns (r: int)
      requires InMemory(View())
      modifies this`sizeStruct, this`offStrings, buf
      ensures Misordered(old(View())) ==> r == -ERR_BADLAYOUT
      ensures !Misordered(old(View())) ==>
        r == AddVerdict(BlockOf(old(View())), DataSize(old(View())), totalsize, parent, name)
      ensures r < 0 ==> View() == old(View())
      ensures r >= 0 ==> Ordered(old(View())) && Spliced(old(View()), View(), r, 0, NodeBytes(name)) && r % 4 == 0
    {
      if Misplaced() {
        return -ERR_BADLAYOUT;
      }
      var b := Block();
      var offset := FdtSubnode(b, parent, name);
      if offset >= 0 {
        return -ERR_EXISTS;
      } else if offset != -ERR_NOTFOUND {
        return offset;
      }
      if parent < 0 {
        return -ERR_INTERNAL;
      }
      ParentSkips(b, parent, name);
      var o := FdtSkipProps(b, CheckNode(b, parent));
      r := InsertNode(o, name);
      if r == 0 {
        return o;
      }
    }

    // --------------------------------------------------------- properties

    /** The new length and value of a property behind whose header the bytes of b
        have been moved. */
    method PutValue(p: int, val: seq<byte>, ghost b: seq<byte>, ghost x: int, ghost size: int, ghost tok: Token)
      requires Opened(b, buf[..], p + 12, x, Align4(|val|), size) && Holds(b, p, tok) && tok.Prop? && |val| <= INT_MAX
      requires 0 <= p && p + 12 + |val| <= buf.Length
      modifies buf
      ensures Opened(b, buf[..], p, 12 + x, 12 + Align4(|val|), size) && Holds(buf[..], p, Prop(tok.nameoff, val))
    {
      ghost var c := buf[..];
      Memcpy(buf, p + 4, Word(|val|));
      Memcpy(buf, p + 12, val);
      PropRewritten(b, c, buf[..], p, x, Align4(|val|), size, tok, val);
    }

    /** fdt_resize_property_ on a property that was found, and the copy of
        fdt_setprop_namelen (lines 212-217, 306-307). */
    method GrowProp(o: int, ghost tok: Token, oldlen: int, val: seq<byte>) returns (err: int)
      requires Ordered(View()) && Holds(Block(), o, tok) && tok.Prop? && oldlen == |tok.val| && |val| <= INT_MAX
      modifies this`sizeStruct, this`offStrings, buf
      ensures err == if DataSize(old(View())) - Size(tok) + Size(Prop(0, val)) > totalsize then -ERR_NOSPACE else 0
      ensures err != 0 ==> View() == old(View())
      ensures err == 0 ==> TokenSpliced(old(View()), View(), o, Size(tok), Prop(tok.nameoff, val))
    {
      ghost var f := View();
      HoldsBound(Block(), o, tok);
      AlignUp(oldlen);
      AlignUp(|val|);
      err := SpliceStruct(o + 12, Align4(oldlen), Align4(|val|));
      if err != 0 {
        return;
      }
      BlockHolds(f, o, tok);
      PutValue(offStruct + o, val, f.bytes, Align4(oldlen), DataSize(f), tok);
      GapHolds(f, View(), o, Size(tok), Prop(tok.nameoff, val));
    }

    method PutProp(p: int, nameoff: int, val: seq<byte>)
      requires 0 <= p && p + Size(Prop(nameoff, val)) <= buf.Length && 0 <= nameoff < U32 && |val| < U32
      modifies buf
      ensures Put(old(buf[..]), buf[..], p, Prop(nameoff, val))
    {
      BuiltProp(buf[..], p, nameoff, val);
      Memcpy(buf, p, PropHead(|val|, nameoff));
      Memcpy(buf, p + 12, val);
    }

    /** A new property at o (lines 236-249, 306-307). */
    method InsertProp(o: int, nameoff: int, val: seq<byte>) returns (err: int)
      requires Ordered(View()) && 0 <= o <= sizeStruct && 0 <= nameoff < U32 && |val| <= INT_MAX
      modifies this`sizeStruct, this`offStrings, buf
      ensures err == if DataSize(old(View())) + Size(Prop(0, val)) > totalsize then -ERR_NOSPACE else 0
      ensures err != 0 ==> View() == old(View())
      ensures err == 0 ==> TokenSpliced(old(View()), View(), o, 0, Prop(nameoff, val))
    {
      ghost var f := View();
      AlignUp(|val|);
      err := SpliceStruct(o, 0, 12 + Align4(|val|));
      if err != 0 {
        return;
      }
      ghost var c := buf[..];
      PutProp(offStruct + o, nameoff, val);
      PutOpened(f.bytes, c, buf[..], offStruct + o, Prop(nameoff, val), DataSize(f));
      GapHolds(f, View(), o, 0, Prop(nameoff, val));
    }

    /** A new string (lines 148-157). */
    method AppendString(name: seq<byte>) returns (err: int)
      requires Ordered(View())
      modifies this`sizeStrings, buf
      ensures err == if DataSize(old(View())) + |name| + 1 > totalsize then -ERR_NOSPACE else 0
      ensures err != 0 ==> View() == old(View())
      ensures err == 0 ==> sizeStrings == old(sizeStrings) + |name| + 1 && Appended(old(View()), View(), name + [0])
    {
      ghost var f := View();
      err := Splice(offStrings + sizeStrings, 0, |name| + 1);
      if err != 0 {
        return;
      }
      ghost var c := buf[..];
      OpenedIs(f.bytes, c, DataSize(f), 0, |name| + 1, DataSize(f));
      Memcpy(buf, offStrings + sizeStrings, name + [0]);
      sizeStrings := sizeStrings + |name| + 1;
      WriteAppends(f, c, View(), name + [0]);
    }

    /** fdt_find_add_string_ (lines 132-160): an offset into the strings block, or
        an error. */
    method FindAddString(name: seq<byte>) returns (q: int, added: bool)
      requires Ordered(View()) && NoNul(name)
      modifies this`sizeStrings, buf
      ensures !added ==> View() == old(View())
      ensures added <==> q >= 0 && !Listed(StringsOf(old(View())), name)
      ensures q < 0 ==> q == -ERR_NOSPACE
      ensures q < 0 <==> !Listed(StringsOf(old(View())), name) && DataSize(old(View())) + |name| + 1 > totalsize
      ensures q >= 0 && !added ==> Named(StringsOf(View()), q, name)
      ensures added ==> q == old(sizeStrings) && Appended(old(View()), View(), name + [0])
    {
      added := false;
      var found := FindString(Strings(), name);
      if found.At? {
        return found.offset, false;
      }
      var err := AppendString(name);
      if err != 0 {
        return err, false;
      }
      return sizeStrings - (|name| + 1), true;
    }

    /** fdt_add_property_ (lines 220-251). A failed call takes the string back. */
    method AddProp(node: int, name: seq<byte>, val: seq<byte>) returns (r: int)
      requires Ordered(View()) && NoNul(name) && |val| <= INT_MAX
      requires CheckNode(Block(), node) <= sizeStruct
      modifies this`sizeStruct, this`offStrings, this`sizeStrings, buf
      ensures CheckNode(BlockOf(old(View())), node) < 0 ==>
        r == CheckNode(BlockOf(old(View())), node) && View() == old(View())
      ensures CheckNode(BlockOf(old(View())), node) >= 0 ==> r == 0 || r == -ERR_NOSPACE
      ensures CheckNode(BlockOf(old(View())), node) >= 0 ==>
                (r == 0 <==>
                   DataSize(old(View())) + NewNameSize(StringsOf(old(View())), name) + Size(Prop(0, val)) <= totalsize)
      ensures r != 0 ==> SameTree(old(View()), View())
      ensures r == 0 ==> PropInserted(old(View()), View(), CheckNode(BlockOf(old(View())), node), name, val)
    {
      ghost var f := View();
      var o := CheckNode(Block(), node);
      if o < 0 {
        return o;
      }
      AlignUp(|val|);
      var q, added := FindAddString(name);
      if q < 0 {
        return q;
      }
      ghost var h := View();
      r := InsertProp(o, q, val);
      if r != 0 {
        if added {
          AppendedBack(f, h, name + [0]);
          sizeStrings := sizeStrings - (|name| + 1);
        }
        return;
      }
      InsertedWith(f, h, View(), o, name, val, q, added);
    }

    /** The property that was found at o gets a new value. */
    method SetFound(o: int, val: seq<byte>) returns (r: int)
      requires Ordered(View()) && o >= 0 && o % 4 == 0 && NextTag(Block(), o).0 == PROP
      requires NextTag(Block(), o).1 <= sizeStruct && |val| <= INT_MAX
      modifies this`sizeStruct, this`offStrings, buf
      ensures FoundSet(old(View()), View(), o, val, r)
    {
      var b := Block();
      TokenHolds(b, o);
      r := GrowProp(o, TokenAt(b, o), |PropAt(b, o, Get32(b, o + 4)).val|, val);
    }

    /** fdt_setprop_namelen (lines 276-309). */
    method SetProp(node: int, name: seq<byte>, val: seq<byte>) returns (r: int)
      requires InMemory(View()) && NoNul(name) && |val| <= INT_MAX
      requires !Misordered(View()) ==> PaddedInside(BlockOf(View()), StringsOf(View()), node, name)
      modifies this`sizeStruct, this`offStrings, this`sizeStrings, buf
      ensures Misordered(old(View())) ==> r == -ERR_BADLAYOUT && View() == old(View())
      ensures !Misordered(old(View())) ==> PropSet(old(View()), View(), node, name, val, r)
    {
      if Misplaced() {
        return -ERR_BADLAYOUT;
      }
      var b := Block();
      var o := FdtGetProp(b, Strings(), node, name);
      if o >= 0 {
        GetPropAligned(b, Strings(), node, name);
        r := SetFound(o, val);
      } else if o == -ERR_NOTFOUND {
        MissingProp(b, Strings(), node, name);
        r := AddProp(node, name, val);
      } else {
        r := o;
      }
    }
  }

  ghost predicate PaddedInside(b: Block, s: seq<byte>, node: int, name: seq<byte>) {
    GetProp(b, s, node, name) >= 0 ==> NextTag(b, GetProp(b, s, node, name)).1 <= |b|
  }

  /** What a name adds to the strings block. */
  ghost function NewNameSize(s: seq<byte>, name: seq<byte>): int {
    if Listed(s, name) then 0 else |name| + 1
  }

  /** A property put in at o; its name was in the strings block or has been added
      there. */
  ghost predicate PropInserted(f: Rw, g: Rw, o: int, name: seq<byte>, val: seq<byte>) {
    exists h, q :: TokenSpliced(h, g, o, 0, Prop(q, val)) && NameReady(f, h, q, name)
  }

  ghost predicate NameReady(f: Rw, h: Rw, q: int, name: seq<byte>) {
    && Ordered(f) && 0 <= q
    && ((h == f && Named(StringsOf(f), q, name)) || (q == f.sizeStrings && Appended(f, h, name + [0])))
  }

  /** The property at o has the new value, or there was no room for it. */
  ghost predicate FoundSet(f: Rw, g: Rw, o: int, val: seq<byte>, r: int)
    requires Ordered(f) && NextTag(BlockOf(f), o).0 == PROP
  {
    var tok := TokenAt(BlockOf(f), o);
    && r == (if DataSize(f) - Size(tok) + Size(Prop(0, val)) > f.totalsize then -ERR_NOSPACE else 0)
    && (r != 0 ==> g == f)
    && (r == 0 ==> TokenSpliced(f, g, o, Size(tok), Prop(tok.nameoff, val)))
  }

  /** What fdt_setprop_namelen does on an ordered blob. */
  ghost predicate PropSet(f: Rw, g: Rw, node: int, name: seq<byte>, val: seq<byte>, r: int)
    requires Ordered(f)
  {
    var b, s := BlockOf(f), StringsOf(f);
    var o := GetProp(b, s, node, name);
    if o >= 0 then FoundSet(f, g, o, val, r)
    else if o == -ERR_NOTFOUND then
      && r == (if DataSize(f) + NewNameSize(s, name) + Size(Prop(0, val)) > f.totalsize then -ERR_NOSPACE else 0)
      && (r != 0 ==> SameTree(f, g))
      && (r == 0 ==> PropInserted(f, g, CheckNode(b, node), name, val))
    else r == o && g == f
  }

  lemma InsertedWith(f: Rw, h: Rw, g: Rw, o: int, name: seq<byte>, val: seq<byte>, q: int, added: bool)
    requires Ordered(f) && 0 <= q && TokenSpliced(h, g, o, 0, Prop(q, val))
    requires if added then q == f.sizeStrings && Appended(f, h, name + [0]) else h == f && Named(StringsOf(f), q, name)
    ensures PropInserted(f, g, o, name, val)
  {
    assert NameReady(f, h, q, name);
  }

  lemma BlockHolds(f: Rw, o: int, tok: Token)
    requires Ordered(f) && Holds(BlockOf(f), o, tok)
    ensures 0 <= o && Holds(f.bytes, f.offStruct + o, tok)
  {
    HoldsBound(BlockOf(f), o, tok);
    SliceOfSlice(f.bytes, f.offStruct, f.sizeStruct, o, o + Size(tok));
    HoldsMoved(BlockOf(f), f.bytes, o, f.offStruct + o, tok);
  }

  /** A token put into a gap of its size. */
  lemma PutOpened(b: seq<byte>, c: seq<byte>, e: seq<byte>, p: int, t: Token, size: int)
    requires Opened(b, c, p, 0, Size(t), size) && Put(c, e, p, t)
    ensures Opened(b, e, p, 0, Size(t), size) && Holds(e, p, t) && |e| == |c|
  {
    OpenedIs(b, c, p, 0, Size(t), size);
    ChangedSlice(c, e, p, Size(t), 0, p);
    ChangedSlice(c, e, p, Size(t), p + Size(t), size + Size(t));
    assert c[0..p] == c[..p] && e[0..p] == e[..p];
    OpenedIs(b, e, p, 0, Size(t), size);
  }

  /** What fdt_add_subnode_namelen answers on an ordered blob: the offset of the
      new node or an error. */
  function AddVerdict(b: Block, dataSize: int, totalsize: int, parent: int, name: seq<byte>): int {
    var s := Subnode(b, parent, 0, name);
    if s >= 0 then -ERR_EXISTS
    else if s != -ERR_NOTFOUND then s
    else if parent < 0 then -ERR_INTERNAL
    else if dataSize + |NodeBytes(name)| > totalsize then -ERR_NOSPACE
    else SkipProps(b, CheckNode(b, parent))
  }

  // ------------------------------------------------- a node comes and goes

  lemma FreshTags(b: Block, o: int, name: seq<byte>)
    requires 0 <= o && o % 4 == 0 && NoNul(name) && o + |NodeBytes(name)| <= |b| <= INT_MAX
    requires b[o..o + |NodeBytes(name)|] == NodeBytes(name)
    ensures var k := Size(Begin(name));
      NextTag(b, o) == (BEGIN_NODE, o + k) && NextTag(b, o + k) == (END_NODE, o + k + 4)
  {
    var n, k := NodeBytes(name), Size(Begin(name));
    NodeBytesHold(name);
    assert n[0..|n|] == n;
    SubSlice(n, b, 0, o, |n|, 0, k);
    SubSlice(n, b, 0, o, |n|, k, k + 4);
    HoldsMoved(n, b, 0, o, Begin(name));
    HoldsMoved(n, b, k, o + k, EndNode);
    NextTagHolds(b, o, Begin(name));
    SizeMod(Begin(name));
    NextTagHolds(b, o + k, EndNode);
  }

  /** The end of a node that has just been put in, on any block. */
  lemma FreshNodeEnd(b: Block, o: int, name: seq<byte>)
    requires 0 <= o && o % 4 == 0 && NoNul(name) && o + |NodeBytes(name)| <= |b| <= INT_MAX
    requires b[o..o + |NodeBytes(name)|] == NodeBytes(name)
    ensures NodeEnd(b, o, 0) == o + |NodeBytes(name)|
  {
    var k := Size(Begin(name));
    FreshTags(b, o, name);
    assert WalkNode(b, o + k, 0) == (o + k + 4, -1);
    assert NextNode(b, o, 0) == (o + k + 4, -1);
  }

  lemma SplicedAt(f: Rw, g: Rw, o: int, n: Block)
    requires Spliced(f, g, o, 0, n)
    ensures Ordered(g) && 0 <= o && o + |n| <= |BlockOf(g)| <= INT_MAX && BlockOf(g)[o..o + |n|] == n
  {
    SplicedIs(f, g, o, 0, n);
  }

  lemma SplicedOrdered(f: Rw, g: Rw, o: int, x: int, n: Block)
    requires Spliced(f, g, o, x, n)
    ensures Ordered(f) && Ordered(g)
  {
    SplicedIs(f, g, o, x, n);
  }

  lemma FreshNodeFound(f: Rw, g: Rw, o: int, name: seq<byte>)
    requires Spliced(f, g, o, 0, NodeBytes(name)) && o % 4 == 0 && NoNul(name)
    ensures Ordered(g) && NodeEnd(BlockOf(g), o, 0) == o + |NodeBytes(name)| >= 0
  {
    SplicedAt(f, g, o, NodeBytes(name));
    FreshNodeEnd(BlockOf(g), o, name);
  }

  /** fdt_del_node on a node that has just been put in. */
  method DeleteFresh(t: RwTree, o: int, name: seq<byte>, ghost f: Rw) returns (r: int)
    requires InMemory(t.View()) && NoNul(name) && o % 4 == 0 && Spliced(f, t.View(), o, 0, NodeBytes(name))
    modifies t, t.buf
    ensures r == 0 && SameTree(f, t.View())
  {
    ghost var g := t.View();
    FreshNodeFound(f, g, o, name);
    r := t.DelNode(o);
    SpliceBack(f, g, t.View(), o, NodeBytes(name));
  }

  /** fdt_add_subnode, then fdt_del_node on the offset it returned: blocks, sizes
      and offsets are as before. */
  method AddThenDelete(t: RwTree, parent: int, name: seq<byte>) returns (r: int)
    requires InMemory(t.View()) && NoNul(name)
    modifies t, t.buf
    ensures r == 0 ==> SameTree(old(t.View()), t.View())
    ensures r < 0 ==> t.View() == old(t.View())
    ensures r <= 0
  {
    ghost var f := t.View();
    r := t.AddSubnode(parent, name);
    if r >= 0 {
      SplicedOrdered(f, t.View(), r, 0, NodeBytes(name));
      r := DeleteFresh(t, r, name, f);
    }
  }
}
