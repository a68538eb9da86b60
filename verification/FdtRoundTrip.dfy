/** Writing a whole tree with the sequential writer and reading it back. */
module FdtRoundTrip {
  import opened Bytes
  import opened FdtTags
  import opened FdtStrings
  import opened FdtStream
  import opened FdtSw
  import opened FdtWriter

  /** Where the structure block starts, behind the header and the closing entry of
      an empty reservation block. */
  const START := HDR_SIZE + 16

  // ---------------------------------------------------- what calls take up

  /** The bytes that a call adds to the structure block. */
  function CallBytes(e: Entry): (n: nat) {
    match e
    case Open(name) => Size(Begin(name))
    case Property(_, val) => Size(Prop(0, val))
    case Close => 4
  }

  function StructBytes(es: seq<Entry>): (n: nat) {
    if es == [] then 0 else CallBytes(es[0]) + StructBytes(es[1..])
  }

  /** The strings table after a call, and after calls. */
  ghost function TableAfter(flags: int, table: seq<byte>, e: Entry): seq<byte> {
    if e.Property? then NewName(flags, table, e.name) + table else table
  }

  ghost function TableFor(flags: int, table: seq<byte>, es: seq<Entry>): seq<byte>
    decreases |es|
  {
    if es == [] then table else TableFor(flags, TableAfter(flags, table, es[0]), es[1..])
  }

  /** What is left of `room` bytes; negative when they do not suffice. */
  ghost function RoomAfter(flags: int, room: int, table: seq<byte>, es: seq<Entry>): int {
    room - StructBytes(es) - (|TableFor(flags, table, es)| - |table|)
  }

  lemma {:induction false} BytesAppend(a: seq<Entry>, c: seq<Entry>)
    ensures StructBytes(a + c) == StructBytes(a) + StructBytes(c)
  {
    if a == [] {
      assert a + c == c;
    } else {
      assert (a + c)[0] == a[0] && (a + c)[1..] == a[1..] + c;
      BytesAppend(a[1..], c);
    }
  }

  lemma {:induction false} TableAppend(flags: int, table: seq<byte>, a: seq<Entry>, c: seq<Entry>)
    ensures TableFor(flags, table, a + c) == TableFor(flags, TableFor(flags, table, a), c)
    decreases |a|
  {
    if a == [] {
      assert a + c == c;
    } else {
      assert (a + c)[0] == a[0] && (a + c)[1..] == a[1..] + c;
      TableAppend(flags, TableAfter(flags, table, a[0]), a[1..], c);
    }
  }

  lemma {:induction false} TableGrows(flags: int, table: seq<byte>, es: seq<Entry>)
    ensures |TableFor(flags, table, es)| >= |table|
    decreases |es|
  {
    if es != [] { TableGrows(flags, TableAfter(flags, table, es[0]), es[1..]); }
  }

  /** Calls one after the other. */
  lemma RoomAppend(flags: int, room: int, table: seq<byte>, a: seq<Entry>, c: seq<Entry>)
    ensures RoomAfter(flags, room, table, a + c)
      == RoomAfter(flags, RoomAfter(flags, room, table, a), TableFor(flags, table, a), c)
    ensures RoomAfter(flags, room, table, a + c) <= RoomAfter(flags, room, table, a)
  {
    BytesAppend(a, c);
    TableAppend(flags, table, a, c);
    TableGrows(flags, TableFor(flags, table, a), c);
  }

  // --------------------------------------------- names and the test for room

  /** The unsigned test of fdt_add_string_ is right for this call: the name is
      shared, or with the table it fits into the buffer of `total` bytes. */
  ghost predicate Safe(flags: int, total: int, table: seq<byte>, e: Entry) {
    e.Property? ==> NewName(flags, table, e.name) == [] || |table| + |e.name| + 1 <= total
  }

  /** ... for every call up to the first that finds no room. */
  ghost predicate AllSafe(flags: int, total: int, room: int, table: seq<byte>, es: seq<Entry>)
    decreases |es|
  {
    room >= 0 && es != [] ==>
      Safe(flags, total, table, es[0])
      && AllSafe(flags, total, RoomAfter(flags, room, table, [es[0]]), TableAfter(flags, table, es[0]), es[1..])
  }

  lemma OneCall(flags: int, room: int, table: seq<byte>, e: Entry)
    ensures TableFor(flags, table, [e]) == TableAfter(flags, table, e)
    ensures RoomAfter(flags, room, table, [e]) == room - CallBytes(e) - (|TableAfter(flags, table, e)| - |table|)
  {
    assert [e][1..] == [];
    assert StructBytes([e]) == CallBytes([e][0]) + StructBytes([e][1..]);
    assert TableFor(flags, table, [e]) == TableFor(flags, TableAfter(flags, table, [e][0]), [e][1..]);
  }

  lemma {:induction false} SafeAppend(flags: int, total: int, room: int, table: seq<byte>, a: seq<Entry>, c: seq<Entry>)
    requires AllSafe(flags, total, room, table, a + c)
    ensures AllSafe(flags, total, room, table, a)
    ensures RoomAfter(flags, room, table, a) >= 0 ==>
      AllSafe(flags, total, RoomAfter(flags, room, table, a), TableFor(flags, table, a), c)
    decreases |a|
  {
    if a == [] {
      assert a + c == c;
    } else {
      assert (a + c)[0] == a[0] && (a + c)[1..] == a[1..] + c && a == [a[0]] + a[1..];
      RoomAppend(flags, room, table, [a[0]], a[1..]);
      OneCall(flags, room, table, a[0]);
      TableGrows(flags, table, [a[0]]);
      if room >= 0 {
        SafeAppend(flags, total, RoomAfter(flags, room, table, [a[0]]), TableAfter(flags, table, a[0]), a[1..], c);
      }
    }
  }

  /** Names shorter than what stands in front of the structure block: those bytes
      can not be strings. (Section 2.2.4.1 of the Devicetree Specification v0.4
      allows property names of at most 31 characters.) */
  lemma {:induction false} ShortSafe(flags: int, total: int, room: int, table: seq<byte>, es: seq<Entry>)
    requires room + |table| + START <= total && forall i :: 0 <= i < |es| && es[i].Property? ==> |es[i].name| < START
    ensures AllSafe(flags, total, room, table, es)
    decreases |es|
  {
    if room >= 0 && es != [] {
      OneCall(flags, room, table, es[0]);
      ShortSafe(flags, total, RoomAfter(flags, room, table, [es[0]]), TableAfter(flags, table, es[0]), es[1..]);
    }
  }

  /** The names of calls with their NULs. */
  function NameBytes(es: seq<Entry>): (n: nat) {
    if es == [] then 0 else (if es[0].Property? then |es[0].name| + 1 else 0) + NameBytes(es[1..])
  }

  /** Names that fit into the buffer together. */
  lemma {:induction false} FewSafe(flags: int, total: int, room: int, table: seq<byte>, es: seq<Entry>)
    requires |table| + NameBytes(es) <= total
    ensures AllSafe(flags, total, room, table, es)
    decreases |es|
  {
    if room >= 0 && es != [] {
      FewSafe(flags, total, RoomAfter(flags, room, table, [es[0]]), TableAfter(flags, table, es[0]), es[1..]);
    }
  }

  // ------------------------------------------------------------ the calls

  ghost predicate GoodProps(ps: seq<(seq<byte>, seq<byte>)>) {
    forall i :: 0 <= i < |ps| ==> NoNul(ps[i].0) && |ps[i].1| <= INT_MAX
  }

  /** Names are C strings, lengths fit into an int. */
  ghost predicate GoodTree(t: Tree)
    decreases t, 1
  {
    NoNul(t.name) && |t.name| < INT_MAX && GoodProps(t.props) && GoodForest(t.children)
  }

  ghost predicate GoodForest(ts: seq<Tree>)
    decreases ts, 0
  {
    forall i :: 0 <= i < |ts| ==> GoodTree(ts[i])
  }

  /** A tree is being written, and the room test is right for the calls to come. */
  ghost predicate Ready(w: Writer, es: seq<Entry>)
    reads w, w.buf
  {
    && w.Valid() && InStruct(w.Value())
    && AllSafe(w.flags, w.totalsize, Room(w.Value()), TableOf(w.Value()), es)
  }

  /** What calls have come to: they succeed exactly if there was room for all of
      them, and then they are what has been written since. */
  ghost predicate CameTo(f: Blob, before: seq<Entry>, g: Blob, after: seq<Entry>, es: seq<Entry>, r: int)
    requires Fits(f)
  {
    && (r == 0 <==> RoomAfter(f.flags, Room(f), TableOf(f), es) >= 0) && (r == 0 || r == -ERR_NOSPACE)
    && (r == 0 ==>
          && Fits(g) && InStruct(g) && after == before + es && g.flags == f.flags && g.totalsize == f.totalsize
          && Room(g) == RoomAfter(f.flags, Room(f), TableOf(f), es) && TableOf(g) == TableFor(f.flags, TableOf(f), es))
  }

  ghost predicate Wrote(f: Blob, before: seq<Entry>, w: Writer, es: seq<Entry>, r: int)
    requires Fits(f)
    reads w, w.buf
  {
    w.Valid() && CameTo(f, before, w.Value(), w.es, es, r)
  }

  /** The first calls have succeeded: the rest can follow. */
  lemma ReadyNext(f: Blob, before: seq<Entry>, w: Writer, a: seq<Entry>, c: seq<Entry>)
    requires Fits(f) && AllSafe(f.flags, f.totalsize, Room(f), TableOf(f), a + c) && Wrote(f, before, w, a, 0)
    ensures Ready(w, c)
  {
    SafeAppend(f.flags, f.totalsize, Room(f), TableOf(f), a, c);
  }

  /** Two runs of calls make one. */
  lemma CameBoth(f: Blob, before: seq<Entry>, g: Blob, mid: seq<Entry>, h: Blob, after: seq<Entry>, a: seq<Entry>,
      c: seq<Entry>, r: int)
    requires Fits(f) && CameTo(f, before, g, mid, a, 0) && CameTo(g, mid, h, after, c, r)
    ensures CameTo(f, before, h, after, a + c, r)
  {
    RoomAppend(f.flags, Room(f), TableOf(f), a, c);
    if r == 0 {
      TableAppend(f.flags, TableOf(f), a, c);
      Behind(before, a, c);
    }
  }

  lemma Behind(before: seq<Entry>, a: seq<Entry>, c: seq<Entry>)
    ensures before + (a + c) == before + a + c
  {
  }

  /** The first call that fails decides. */
  lemma CameFirst(f: Blob, before: seq<Entry>, g: Blob, mid: seq<Entry>, a: seq<Entry>, c: seq<Entry>, r: int)
    requires Fits(f) && CameTo(f, before, g, mid, a, r) && r != 0
    ensures CameTo(f, before, g, mid, a + c, r)
  {
    RoomAppend(f.flags, Room(f), TableOf(f), a, c);
  }

  method WriteOpen(w: Writer, name: seq<byte>) returns (r: int)
    requires Ready(w, [Open(name)]) && NoNul(name) && |name| < INT_MAX
    modifies w, w.buf
    ensures Wrote(old(w.Value()), old(w.es), w, [Open(name)], r)
  {
    OneCall(w.flags, Room(w.Value()), TableOf(w.Value()), Open(name));
    r := w.BeginNode(name);
  }

  method WriteClose(w: Writer) returns (r: int)
    requires Ready(w, [Close])
    modifies w, w.buf
    ensures Wrote(old(w.Value()), old(w.es), w, [Close], r)
  {
    OneCall(w.flags, Room(w.Value()), TableOf(w.Value()), Close);
    r := w.CloseNode();
  }

  /** One fdt_property call. */
  method WriteProp(w: Writer, name: seq<byte>, val: seq<byte>) returns (r: int)
    requires Ready(w, [Property(name, val)]) && NoNul(name) && |val| <= INT_MAX
    modifies w, w.buf
    ensures Wrote(old(w.Value()), old(w.es), w, [Property(name, val)], r)
  {
    OneCall(w.flags, Room(w.Value()), TableOf(w.Value()), Property(name, val));
    assert Safe(w.flags, w.totalsize, TableOf(w.Value()), [Property(name, val)][0]);
    r := w.AddProperty(name, val);
  }

  method WriteProps(w: Writer, ps: seq<(seq<byte>, seq<byte>)>) returns (r: int)
    requires Ready(w, FlattenProps(ps)) && GoodProps(ps)
    modifies w, w.buf
    ensures Wrote(old(w.Value()), old(w.es), w, FlattenProps(ps), r)
  {
    r := 0;
    if ps == [] {
      assert w.es + [] == w.es;
      return;
    }
    ghost var f, calls, a, c := w.Value(), w.es, [Property(ps[0].0, ps[0].1)], FlattenProps(ps[1..]);
    SafeAppend(f.flags, f.totalsize, Room(f), TableOf(f), a, c);
    r := WriteProp(w, ps[0].0, ps[0].1);
    if r != 0 {
      CameFirst(f, calls, w.Value(), w.es, a, c, r);
      return;
    }
    ReadyNext(f, calls, w, a, c);
    ghost var g, mid := w.Value(), w.es;
    r := WriteProps(w, ps[1..]);
    CameBoth(f, calls, g, mid, w.Value(), w.es, a, c, r);
  }

  /** fdt_begin_node, the properties, the children, fdt_end_node; the first
      error stops it. */
  method WriteTree(w: Writer, t: Tree) returns (r: int)
    requires Ready(w, Flatten(t)) && GoodTree(t)
    modifies w, w.buf
    ensures Wrote(old(w.Value()), old(w.es), w, Flatten(t), r)
    decreases t, 1
  {
    ghost var f, calls, a, c := w.Value(), w.es, [Open(t.name)] + FlattenProps(t.props),
      FlattenAll(t.children) + [Close];
    assert Flatten(t) == a + c;
    r := WriteFront(w, t);
    if r != 0 {
      CameFirst(f, calls, w.Value(), w.es, a, c, r);
      return;
    }
    ReadyNext(f, calls, w, a, c);
    ghost var g, mid := w.Value(), w.es;
    r := WriteBack(w, t.children);
    CameBoth(f, calls, g, mid, w.Value(), w.es, a, c, r);
  }

  method WriteFront(w: Writer, t: Tree) returns (r: int)
    requires Ready(w, Flatten(t)) && NoNul(t.name) && |t.name| < INT_MAX && GoodProps(t.props)
    modifies w, w.buf
    ensures Wrote(old(w.Value()), old(w.es), w, [Open(t.name)] + FlattenProps(t.props), r)
  {
    ghost var f, calls, a, c := w.Value(), w.es, [Open(t.name)], FlattenProps(t.props);
    assert Flatten(t) == (a + c) + (FlattenAll(t.children) + [Close]);
    SafeAppend(f.flags, f.totalsize, Room(f), TableOf(f), a + c, FlattenAll(t.children) + [Close]);
    SafeAppend(f.flags, f.totalsize, Room(f), TableOf(f), a, c);
    r := WriteOpen(w, t.name);
    if r != 0 {
      CameFirst(f, calls, w.Value(), w.es, a, c, r);
      return;
    }
    ReadyNext(f, calls, w, a, c);
    ghost var g, mid := w.Value(), w.es;
    r := WriteProps(w, t.props);
    CameBoth(f, calls, g, mid, w.Value(), w.es, a, c, r);
  }

  method WriteBack(w: Writer, ts: seq<Tree>) returns (r: int)
    requires Ready(w, FlattenAll(ts) + [Close]) && GoodForest(ts)
    modifies w, w.buf
    ensures Wrote(old(w.Value()), old(w.es), w, FlattenAll(ts) + [Close], r)
    decreases ts, 2
  {
    ghost var f, calls, a, c := w.Value(), w.es, FlattenAll(ts), [Close];
    SafeAppend(f.flags, f.totalsize, Room(f), TableOf(f), a, c);
    r := WriteForest(w, ts);
    if r != 0 {
      CameFirst(f, calls, w.Value(), w.es, a, c, r);
      return;
    }
    ReadyNext(f, calls, w, a, c);
    ghost var g, mid := w.Value(), w.es;
    r := WriteClose(w);
    CameBoth(f, calls, g, mid, w.Value(), w.es, a, c, r);
  }

  method WriteForest(w: Writer, ts: seq<Tree>) returns (r: int)
    requires Ready(w, FlattenAll(ts)) && GoodForest(ts)
    modifies w, w.buf
    ensures Wrote(old(w.Value()), old(w.es), w, FlattenAll(ts), r)
    decreases ts, 1
  {
    r := 0;
    if ts == [] {
      assert w.es + [] == w.es;
      return;
    }
    ghost var f, calls, a, c := w.Value(), w.es, Flatten(ts[0]), FlattenAll(ts[1..]);
    SafeAppend(f.flags, f.totalsize, Room(f), TableOf(f), a, c);
    r := WriteTree(w, ts[0]);
    if r != 0 {
      CameFirst(f, calls, w.Value(), w.es, a, c, r);
      return;
    }
    ReadyNext(f, calls, w, a, c);
    ghost var g, mid := w.Value(), w.es;
    r := WriteForest(w, ts[1..]);
    CameBoth(f, calls, g, mid, w.Value(), w.es, a, c, r);
  }

  // ------------------------------------------------------- the whole blob

  /** The size of a buffer in which the tree can be written: header, empty
      reservation block, structure block with its end, strings. */
  ghost function Needed(flags: int, t: Tree): int {
    START + StructBytes(Flatten(t)) + 4 + |TableFor(flags, [], Flatten(t))|
  }

  /** The whole sequence from fdt_create to fdt_finish, for names that the room
      test treats right. It succeeds exactly if the flags are known and the buffer
      is large enough, and then walking the finished blob gives the tree back. */
  method WriteBlob(w: Writer, flags: int, t: Tree) returns (r: int)
    requires w.Valid() && GoodTree(t) && 0 <= flags < U32
    requires AllSafe(flags, w.buf.Length, w.buf.Length - START, [], Flatten(t))
    modifies w, w.buf
    ensures w.Valid()
    ensures r == if w.buf.Length < HDR_SIZE then -ERR_NOSPACE else if flags > NO_NAME_DEDUP then -ERR_BADFLAGS
                 else if Needed(flags, t) > w.buf.Length then -ERR_NOSPACE else 0
    ensures r == 0 ==> 0 <= w.offStruct <= w.offStrings <= w.totalsize <= w.buf.Length
    ensures r == 0 ==> ReadsTree(w.buf[w.offStruct..w.offStrings], w.buf[w.offStrings..w.totalsize], t)
  {
    NeedsStart(flags, w.buf.Length, t);
    r := w.Create(w.buf.Length, flags);
    if r != 0 {
      return;
    }
    r := w.FinishReservemap();
    if r != 0 {
      return;
    }
    assert TableOf(w.Value()) == [] && w.es == [];
    ghost var f := w.Value();
    r := WriteTree(w, t);
    if r != 0 {
      return;
    }
    r := w.Finish();
    if r == 0 {
      assert w.es == Flatten(t);
      TreeBack(w.buf[w.offStruct..w.offStrings], w.buf[w.offStrings..w.totalsize], t);
    }
  }

  lemma NeedsStart(flags: int, total: int, t: Tree)
    ensures Needed(flags, t) >= START + 4
    ensures RoomAfter(flags, total - START, [], Flatten(t)) == total + 4 - Needed(flags, t)
  {
  }

  /** The same for trees whose property names are all short. */
  method WriteShort(w: Writer, flags: int, t: Tree) returns (r: int)
    requires w.Valid() && GoodTree(t) && 0 <= flags < U32
    requires forall i :: 0 <= i < |Flatten(t)| && Flatten(t)[i].Property? ==> |Flatten(t)[i].name| < START
    modifies w, w.buf
    ensures r == 0 <==> flags <= NO_NAME_DEDUP && Needed(flags, t) <= w.buf.Length
    ensures r == 0 ==> 0 <= w.offStruct <= w.offStrings <= w.totalsize <= w.buf.Length
    ensures r == 0 ==> ReadsTree(w.buf[w.offStruct..w.offStrings], w.buf[w.offStrings..w.totalsize], t)
  {
    ShortSafe(flags, w.buf.Length, w.buf.Length - START, [], Flatten(t));
    NeedsStart(flags, w.buf.Length, t);
    r := WriteBlob(w, flags, t);
  }

  /** Walking the blocks and nesting what is read gives the tree. */
  ghost predicate ReadsTree(b: Block, s: seq<byte>, t: Tree) {
    exists es :: Reads(b, s, es) && Rebuild(es) == Forest([t], [])
  }

  lemma TreeBack(b: Block, s: seq<byte>, t: Tree)
    requires Reads(b, s, Flatten(t))
    ensures ReadsTree(b, s, t)
  {
    assert FlattenAll([t]) + [] == Flatten(t);
    RebuildFlatten([t], []);
  }
}
