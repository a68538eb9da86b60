/** The sequential writer of lib/libfdt/fdt_sw.c as an object: header fields,
    one buffer, and a ghost record of the calls that succeeded. */
module FdtWriter {
  import opened Bytes
  import opened FdtTags
  import opened FdtStrings
  import opened FdtStream
  import opened FdtSw
  import opened MemOps

  const LAST_COMP_VERSION := 16

  class Writer {
    const buf: array<byte>
    var magic: int
    var totalsize: int
    var offStruct: int
    var offStrings: int
    var sizeStruct: int
    var sizeStrings: int
    var flags: int

    ghost var toks: seq<Token>
    ghost var es: seq<Entry>

    ghost function Value(): Blob
      reads this, buf
    {
      Blob(magic, totalsize, offStruct, offStrings, sizeStruct, sizeStrings, flags, buf[..])
    }

    ghost function State(): (Blob, seq<Token>, seq<Entry>)
      reads this, buf
    {
      (Value(), toks, es)
    }

    /** While a tree is being written the blocks fit into the buffer and hold
        what the successful calls wrote. */
    ghost predicate Valid()
      reads this, buf
    {
      && buf.Length <= INT_MAX
      && (magic == SW_MAGIC ==>
            && Fits(Value())
            && (offStrings != totalsize ==>
              offStrings == 0 && sizeStruct == 0 && sizeStrings == 0 && toks == [] && es == [])
            && (offStrings == totalsize ==> offStruct >= HDR_SIZE + 16 && Drafted(Value(), toks, es)))
    }

    /** A buffer that holds no tree under construction. */
    constructor (b: array<byte>, m: int)
      requires m != SW_MAGIC && b.Length <= INT_MAX
      ensures buf == b && Valid() && magic == m
    {
      buf := b;
      magic := m;
    }

    // ----------------------------------------------------------- states

    /** fdt_sw_probe_ (lines 13-23). */
    function Probe(): int
      reads this
    {
      if magic == FDT_MAGIC then -ERR_BADSTATE else if magic != SW_MAGIC then -ERR_BADMAGIC else 0
    }

    /** fdt_sw_probe_memrsv_ (lines 38-47). */
    function ProbeMemrsv(): int
      reads this
    {
      if Probe() != 0 then Probe() else if offStrings != 0 then -ERR_BADSTATE else 0
    }

    /** fdt_sw_probe_struct_ (lines 64-74). */
    function ProbeStruct(): int
      reads this
    {
      if Probe() != 0 then Probe() else if offStrings != totalsize then -ERR_BADSTATE else 0
    }

    // ------------------------------------------------------------ create

    /** fdt_create_with_flags (lines 109-141). */
    method Create(bufsize: int, createFlags: int) returns (r: int)
      requires Valid() && bufsize == buf.Length && 0 <= createFlags < U32
      modifies this, buf
      ensures Valid()
      ensures r == if bufsize < HDR_SIZE then -ERR_NOSPACE else if createFlags > NO_NAME_DEDUP then -ERR_BADFLAGS else 0
      ensures r != 0 ==> State() == old(State())
      ensures r == 0 ==> InMemrsv(Value()) && flags == createFlags && totalsize == bufsize && es == []
      ensures r == 0 ==> offStruct == HDR_SIZE && sizeStruct == 0 && sizeStrings == 0
    {
      if bufsize < HDR_SIZE {
        return -ERR_NOSPACE;
      }
      if createFlags > NO_NAME_DEDUP {
        return -ERR_BADFLAGS;
      }
      Memset(buf, 0, 0, bufsize);
      magic := SW_MAGIC;
      flags := createFlags;
      totalsize := bufsize;
      offStruct := HDR_SIZE;
      offStrings := 0;
      sizeStruct := 0;
      sizeStrings := 0;
      toks := [];
      es := [];
      return 0;
    }

    /** fdt_add_reservemap_entry (lines 188-206): a 16-byte entry. */
    method AddReserve(addr: seq<byte>, size: seq<byte>) returns (r: int)
      requires Valid() && |addr| == 8 && |size| == 8
      modifies this`offStruct, buf
      ensures Valid()
      ensures r == if old(ProbeMemrsv()) != 0 then old(ProbeMemrsv())
        else if old(offStruct) + 16 > totalsize then -ERR_NOSPACE else 0
      ensures r != 0 ==> State() == old(State())
      ensures r == 0 ==>
        offStruct == old(offStruct) + 16 && buf[..] == Overwrite(old(buf[..]), old(offStruct), addr + size)
    {
      if ProbeMemrsv() != 0 {
        return ProbeMemrsv();
      }
      if offStruct + 16 > totalsize {
        return -ERR_NOSPACE;
      }
      Memcpy(buf, offStruct, addr + size);
      offStruct := offStruct + 16;
      return 0;
    }

    /** fdt_finish_reservemap (lines 208-217): the closing entry is all zero. */
    method FinishReservemap() returns (r: int)
      requires Valid()
      modifies this`offStruct, this`offStrings, buf
      ensures Valid()
      ensures r == if old(ProbeMemrsv()) != 0 then old(ProbeMemrsv())
        else if old(offStruct) + 16 > totalsize then -ERR_NOSPACE else 0
      ensures r != 0 ==> State() == old(State())
      ensures r == 0 ==> InStruct(Value()) && offStruct == old(offStruct) + 16
      ensures r == 0 ==> buf[..] == Overwrite(old(buf[..]), old(offStruct), seq(16, i => 0))
    {
      var zeros: seq<byte> := seq(8, i => 0);
      assert zeros + zeros == seq(16, i => 0);
      r := AddReserve(zeros, zeros);
      if r != 0 {
        return;
      }
      offStrings := totalsize;
      assert StructOf(Value()) == [] && TableOf(Value()) == [];
      WrittenNil([]);
      return 0;
    }

    // ------------------------------------------------------------- nodes

    /** fdt_grab_space_ (lines 94-107): extend the structure block, or -1. The
        sum is a 32-bit one; its wrapping is noticed. */
    method GrabSpace(len: int) returns (p: int)
      requires Fits(Value()) && 0 <= len < U32
      modifies this`sizeStruct
      ensures len > Room(old(Value())) ==> p == -1 && unchanged(this)
      ensures len <= Room(old(Value())) ==> p == offStruct + old(sizeStruct) && sizeStruct == old(sizeStruct) + len
    {
      var offset := sizeStruct;
      var spaceleft := totalsize - offStruct - sizeStrings;
      var sum := (offset + len) % U32;
      assert offset + len >= U32 ==> sum == offset + len - U32;
      if sum < offset || sum > spaceleft {
        return -1;
      }
      sizeStruct := sum;
      return offStruct + offset;
    }

    method PutBegin(p: int, name: seq<byte>)
      requires 0 <= p && p + Size(Begin(name)) <= buf.Length && NoNul(name)
      modifies buf
      ensures Put(old(buf[..]), buf[..], p, Begin(name))
    {
      BuiltBegin(buf[..], p, name);
      Memcpy(buf, p, Word(BEGIN_NODE));
      Memcpy(buf, p + 4, name + [0]);
    }

    method PutTag(p: int, ghost t: Token, tag: int)
      requires 0 <= p && p + 4 <= buf.Length && (t.EndNode? || t.Fin?) && tag == TagOf(t)
      modifies buf
      ensures Put(old(buf[..]), buf[..], p, t)
    {
      BuiltTag(buf[..], p, t);
      Memcpy(buf, p, Word(tag));
    }

    method PutProp(p: int, nameoff: int, val: seq<byte>)
      requires 0 <= p && p + Size(Prop(nameoff, val)) <= buf.Length && 0 <= nameoff < U32 && |val| < U32
      modifies buf
      ensures Put(old(buf[..]), buf[..], p, Prop(nameoff, val))
    {
      BuiltProp(buf[..], p, nameoff, val);
      Memcpy(buf, p, PropHead(|val|, nameoff));
      Memcpy(buf, p + 12, val);
    }

    /** fdt_begin_node (lines 219-234). */
    method BeginNode(name: seq<byte>) returns (r: int)
      requires Valid() && NoNul(name) && |name| < INT_MAX
      modifies this`sizeStruct, this`toks, this`es, buf
      ensures Valid()
      ensures r == if old(ProbeStruct()) != 0 then old(ProbeStruct())
        else if Size(Begin(name)) > Room(old(Value())) then -ERR_NOSPACE else 0
      ensures r != 0 ==> State() == old(State())
      ensures r == 0 ==> toks == old(toks) + [Begin(name)] && es == old(es) + [Open(name)]
      ensures r == 0 ==> sizeStruct == old(sizeStruct) + Size(Begin(name)) && TableOf(Value()) == TableOf(old(Value()))
    {
      if ProbeStruct() != 0 {
        return ProbeStruct();
      }
      ghost var f, ts, calls := Value(), toks, es;
      AlignUp(|name| + 1);
      var p := GrabSpace(4 + Align4(|name| + 1));
      if p < 0 {
        return -ERR_NOSPACE;
      }
      PutBegin(p, name);
      toks := toks + [Begin(name)];
      es := es + [Open(name)];
      TokenAdded(f, Value(), ts, calls, Begin(name), Open(name));
      return 0;
    }

    /** fdt_end_node (lines 236-248). */
    method CloseNode() returns (r: int)
      requires Valid()
      modifies this`sizeStruct, this`toks, this`es, buf
      ensures Valid()
      ensures r == if old(ProbeStruct()) != 0 then old(ProbeStruct()) else if 4 > Room(old(Value())) then -ERR_NOSPACE
        else 0
      ensures r != 0 ==> State() == old(State())
      ensures r == 0 ==> toks == old(toks) + [EndNode] && es == old(es) + [Close] && sizeStruct == old(sizeStruct) + 4
      ensures r == 0 ==> TableOf(Value()) == TableOf(old(Value()))
    {
      if ProbeStruct() != 0 {
        return ProbeStruct();
      }
      ghost var f, ts, calls := Value(), toks, es;
      var p := GrabSpace(4);
      if p < 0 {
        return -ERR_NOSPACE;
      }
      PutTag(p, EndNode, END_NODE);
      toks := toks + [EndNode];
      es := es + [Close];
      TokenAdded(f, Value(), ts, calls, EndNode, Close);
      return 0;
    }

    // ----------------------------------------------------------- strings

    /** The test of fdt_add_string_ (lines 257-260). */
    method StringsFull(len: int) returns (full: bool)
      requires Fits(Value()) && 0 < len && sizeStrings + len <= totalsize
      ensures full <==> len > Room(Value())
    {
      RoomTestExact(totalsize, sizeStrings, len, offStruct + sizeStruct);
      return NoRoom(totalsize, sizeStrings, len, offStruct + sizeStruct);
    }

    /** fdt_add_string_ (lines 250-265): the distance of the new string from the
        end of the buffer, 0 if it does not fit. See `RoomTestExact` for what the
        unsigned test does without the last precondition. */
    method AddString(name: seq<byte>) returns (k: int)
      requires Valid() && InStruct(Value()) && NoNul(name) && sizeStrings + |name| + 1 <= totalsize
      modifies this`sizeStrings, buf
      ensures Valid()
      ensures k == 0 <==> |name| + 1 > Room(old(Value()))
      ensures k == 0 ==> State() == old(State())
      ensures k != 0 ==> k == sizeStrings == old(sizeStrings) + |name| + 1 && Named(TableOf(Value()), 0, name)
      ensures k != 0 ==>
        Grown(old(Value()), Value(), |name| + 1) && TableOf(Value()) == name + [0] + TableOf(old(Value()))
    {
      ghost var f := Value();
      var len := |name| + 1;
      var full := StringsFull(len);
      if full {
        return 0;
      }
      Memcpy(buf, totalsize - (sizeStrings + len), name + [0]);
      sizeStrings := sizeStrings + len;
      StringAdded(f, Value(), toks, es, name);
      return sizeStrings;
    }

    /** fdt_find_add_string_ (lines 276-291). */
    method FindAddString(name: seq<byte>) returns (k: int, added: bool)
      requires Valid() && InStruct(Value()) && NoNul(name) && flags != NO_NAME_DEDUP
      requires Shared(Value(), name) || sizeStrings + |name| + 1 <= totalsize
      modifies this`sizeStrings, buf
      ensures Valid()
      ensures added <==> !Shared(old(Value()), name)
      ensures k == 0 <==> added && |name| + 1 > Room(old(Value()))
      ensures !added || k == 0 ==> State() == old(State())
      ensures k != 0 ==> 0 < k <= sizeStrings && Named(TableOf(Value()), sizeStrings - k, name)
      ensures added && k != 0 ==> sizeStrings == old(sizeStrings) + |name| + 1
      ensures added && k != 0 ==>
        Grown(old(Value()), Value(), |name| + 1) && TableOf(Value()) == name + [0] + TableOf(old(Value()))
    {
      var t := buf[totalsize - sizeStrings..totalsize];
      assert t == TableOf(Value());
      var found := FindString(t, name);
      if found.At? {
        return sizeStrings - found.offset, false;
      }
      added := true;
      k := AddString(name);
    }

    // -------------------------------------------------------- properties

    /** The name half of fdt_property_placeholder (lines 302-309). */
    method PlaceName(name: seq<byte>) returns (k: int, added: bool)
      requires Valid() && InStruct(Value()) && NoNul(name)
      requires Shared(Value(), name) || sizeStrings + |name| + 1 <= totalsize
      modifies this`sizeStrings, buf
      ensures Valid()
      ensures added <==> !Shared(old(Value()), name)
      ensures k == 0 <==> added && |name| + 1 > Room(old(Value()))
      ensures !added || k == 0 ==> State() == old(State())
      ensures k != 0 ==> 0 < k <= sizeStrings && Named(TableOf(Value()), sizeStrings - k, name)
      ensures added && k != 0 ==> sizeStrings == old(sizeStrings) + |name| + 1
      ensures added && k != 0 ==>
        Grown(old(Value()), Value(), |name| + 1) && TableOf(Value()) == name + [0] + TableOf(old(Value()))
    {
      if flags == NO_NAME_DEDUP {
        added := true;
        k := AddString(name);
      } else {
        k, added := FindAddString(name);
      }
    }

    /** The rest of fdt_property_placeholder and the copy of fdt_property (lines
        311-335): the token, given a name k bytes from the end. */
    method PlaceProp(k: int, name: seq<byte>, val: seq<byte>) returns (done: bool)
      requires Valid() && InStruct(Value()) && 0 < k <= sizeStrings && Named(TableOf(Value()), sizeStrings - k, name)
      requires |val| <= INT_MAX
      modifies this`sizeStruct, this`toks, this`es, buf
      ensures Valid()
      ensures done <==> Size(Prop(0, val)) <= Room(old(Value()))
      ensures !done ==> State() == old(State())
      ensures done ==> toks == old(toks) + [Prop(U32 - k, val)] && es == old(es) + [Property(name, val)]
      ensures done ==> sizeStruct == old(sizeStruct) + Size(Prop(0, val)) && TableOf(Value()) == TableOf(old(Value()))
    {
      ghost var f, ts, calls := Value(), toks, es;
      AlignUp(|val|);
      var p := GrabSpace(12 + Align4(|val|));
      if p < 0 {
        return false;
      }
      PutProp(p, U32 - k, val);
      toks := toks + [Prop(U32 - k, val)];
      es := es + [Property(name, val)];
      TokenAdded(f, Value(), ts, calls, Prop(U32 - k, val), Property(name, val));
      return true;
    }

    /** fdt_del_last_string_ (lines 268-274): back to the state f, but for bytes
        that belong to no block. */
    method DelLastString(name: seq<byte>, ghost f: Blob)
      requires Valid() && Drafted(f, toks, es) && Grown(f, Value(), |name| + 1)
      modifies this`sizeStrings
      ensures Valid() && SameBlocks(f, Value())
    {
      StringDropped(f, Value(), |name| + 1);
      sizeStrings := sizeStrings - (|name| + 1);
    }

    /** fdt_property_placeholder and fdt_property past the probe. */
    method TryProperty(name: seq<byte>, val: seq<byte>) returns (done: bool)
      requires Valid() && InStruct(Value()) && NoNul(name) && |val| <= INT_MAX
      requires Shared(Value(), name) || sizeStrings + |name| + 1 <= totalsize
      modifies this`sizeStruct, this`sizeStrings, this`toks, this`es, buf
      ensures Valid()
      ensures done <==> Size(Prop(0, val)) + NameCost(old(Value()), name) <= Room(old(Value()))
      ensures !done ==> SameBlocks(old(Value()), Value()) && toks == old(toks) && es == old(es)
      ensures done ==> es == old(es) + [Property(name, val)]
      ensures done ==>
        sizeStruct == old(sizeStruct) + Size(Prop(0, val))
        && sizeStrings == old(sizeStrings) + NameCost(old(Value()), name)
      ensures done ==> TableOf(Value()) == NewName(flags, TableOf(old(Value())), name) + TableOf(old(Value()))
    {
      ghost var f := Value();
      var k, added := PlaceName(name);
      if k == 0 {
        return false;
      }
      done := PlaceProp(k, name, val);
      if !done && added {
        DelLastString(name, f);
      }
    }

    /** fdt_property (lines 293-335). A call that fails leaves both blocks and
        their sizes as they were. */
    method AddProperty(name: seq<byte>, val: seq<byte>) returns (r: int)
      requires Valid() && NoNul(name) && |val| <= INT_MAX
      requires ProbeStruct() == 0 ==> Shared(Value(), name) || sizeStrings + |name| + 1 <= totalsize
      modifies this`sizeStruct, this`sizeStrings, this`toks, this`es, buf
      ensures Valid()
      ensures old(ProbeStruct()) != 0 ==> r == old(ProbeStruct()) && State() == old(State())
      ensures old(ProbeStruct()) == 0 ==> r == 0 || r == -ERR_NOSPACE
      ensures old(ProbeStruct()) == 0 ==>
        (r == 0 <==> Size(Prop(0, val)) + NameCost(old(Value()), name) <= Room(old(Value())))
      ensures r == -ERR_NOSPACE ==> SameBlocks(old(Value()), Value()) && toks == old(toks) && es == old(es)
      ensures r == 0 ==> es == old(es) + [Property(name, val)]
      ensures r == 0 ==>
        sizeStruct == old(sizeStruct) + Size(Prop(0, val))
        && sizeStrings == old(sizeStrings) + NameCost(old(Value()), name)
      ensures r == 0 ==> TableOf(Value()) == NewName(flags, TableOf(old(Value())), name) + TableOf(old(Value()))
    {
      if ProbeStruct() != 0 {
        return ProbeStruct();
      }
      var done := TryProperty(name, val);
      return if done then 0 else -ERR_NOSPACE;
    }

    // ------------------------------------------------------------ finish

    /** The structure block as it stands. */
    function Struct(): seq<byte>
      requires 0 <= offStruct && 0 <= sizeStruct && offStruct + sizeStruct <= buf.Length
      reads this, buf
    {
      buf[offStruct..offStruct + sizeStruct]
    }

    /** A word stored into the structure block. */
    method StoreWord(offset: int, w: seq<byte>)
      requires 0 <= offStruct && 0 <= sizeStruct && offStruct + sizeStruct <= buf.Length
      requires 0 <= offset && offset + |w| <= sizeStruct
      modifies buf
      ensures Struct() == Overwrite(old(Struct()), offset, w)
      ensures Changed(old(buf[..]), buf[..], offStruct, sizeStruct)
    {
      ghost var was := buf[..];
      Memcpy(buf, offStruct + offset, w);
      NamePatched(was, buf[..], offStruct, sizeStruct, offset, w);
    }

    /** The body of the loop of fdt_finish for a property (lines 362-370). */
    method RelocateName(offset: int)
      requires 0 <= offStruct && 0 <= sizeStruct && offStruct + sizeStruct <= buf.Length
      requires 0 <= offset && offset + 12 <= sizeStruct
      modifies buf
      ensures Struct()
        == Overwrite(old(Struct()), offset + 8, Word((Get32(old(Struct()), offset + 8) + sizeStrings) % U32))
      ensures Changed(old(buf[..]), buf[..], offStruct, sizeStruct)
    {
      var nameoff := Get32(Struct(), offset + 8);
      StoreWord(offset + 8, Word((nameoff + sizeStrings) % U32));
    }

    /** One call of fdt_next_tag in that loop. */
    method WalkOn(ghost ts: seq<Token>, ghost i: int, offset: int) returns (tag: int, next: int)
      requires 0 <= offStruct && 0 <= sizeStruct && offStruct + sizeStruct <= buf.Length <= INT_MAX
      requires 0 <= i <= |ts| && Reached(Struct(), ts, i, sizeStrings, offset)
      ensures i < |ts| ==> tag == TagOf(ts[i]) != END && next == offset + Size(ts[i])
      ensures i == |ts| ==> tag == END && next == offset + 4
      ensures 0 <= offset
    {
      ReachedTag(Struct(), ts, i, sizeStrings, offset);
      tag, next := FdtNextTag(Struct(), offset);
    }

    /** The loop of fdt_finish (lines 360-374). */
    method RelocateNames(ghost ts: seq<Token>) returns (next: int)
      requires 0 <= offStruct && 0 <= sizeStruct && offStruct + sizeStruct <= buf.Length <= INT_MAX
      requires Laid(Struct(), 0, ts + [Fin]) && NoFin(ts)
      modifies buf
      ensures next >= 0 && Laid(Struct(), 0, RelocateAll(ts, sizeStrings) + [Fin])
      ensures Changed(old(buf[..]), buf[..], offStruct, sizeStruct)
    {
      var offset := 0;
      ghost var i := 0;
      ReachedStart(Struct(), ts, sizeStrings);
      ChangedIs(buf[..], buf[..], offStruct, sizeStruct);
      var tag: int;
      tag, next := WalkOn(ts, i, offset);
      while tag != END
        invariant 0 <= i <= |ts| && Reached(Struct(), ts, i, sizeStrings, offset)
        invariant i < |ts| ==> tag == TagOf(ts[i]) != END && next == offset + Size(ts[i])
        invariant i == |ts| ==> tag == END && next == offset + 4
        invariant 0 <= offset
        invariant Changed(old(buf[..]), buf[..], offStruct, sizeStruct)
        decreases |ts| - i
      {
        if tag == PROP {
          ReachedProp(Struct(), ts, i, sizeStrings, offset);
          ghost var mid := buf[..];
          RelocateName(offset);
          ChangedTwice(old(buf[..]), mid, buf[..], offStruct, sizeStruct);
        } else {
          ReachedOther(Struct(), ts, i, sizeStrings, offset);
        }
        offset := next;
        i := i + 1;
        tag, next := WalkOn(ts, i, offset);
      }
      ReachedEnd(Struct(), ts, sizeStrings, offset);
    }

    /** The terminator (lines 348-351). */
    method Seal() returns (ok: bool)
      requires Valid() && InStruct(Value())
      modifies this`sizeStruct, buf
      ensures ok <==> 4 <= Room(old(Value()))
      ensures !ok ==> State() == old(State())
      ensures ok ==> Fits(Value()) && Sealed(StructOf(Value()), TableOf(Value()), toks, es)
    {
      ghost var f := Value();
      var p := GrabSpace(4);
      if p < 0 {
        return false;
      }
      PutTag(p, Fin, END);
      FinAdded(f, Value(), toks, es);
      return true;
    }

    /** The strings move down (lines 354-357), over themselves if need be. */
    method MoveStrings()
      requires Fits(Value()) && Sealed(StructOf(Value()), TableOf(Value()), toks, es)
      modifies this`offStrings, buf
      ensures offStrings == offStruct + sizeStruct
      ensures Sealed(Struct(), buf[offStrings..offStrings + sizeStrings], toks, es)
    {
      ghost var g := Value();
      Memmove(buf, offStruct + sizeStruct, totalsize - sizeStrings, sizeStrings);
      MovedSealed(g, buf[..], toks, es);
      offStrings := offStruct + sizeStruct;
    }

    /** The name offsets become offsets from the start of the table (lines 360-374). */
    method FixOffsets()
      requires 0 <= offStruct && 0 <= sizeStruct && 0 <= sizeStrings && offStrings == offStruct + sizeStruct
      requires offStrings + sizeStrings <= buf.Length <= INT_MAX
      requires Sealed(Struct(), buf[offStrings..offStrings + sizeStrings], toks, es)
      modifies buf
      ensures Reads(Struct(), buf[offStrings..offStrings + sizeStrings], es)
    {
      ghost var b, t, was := Struct(), buf[offStrings..offStrings + sizeStrings], buf[..];
      SealedIs(b, t, toks, es);
      var next := RelocateNames(toks);
      ChangedSlice(was, buf[..], offStruct, sizeStruct, offStrings, offStrings + sizeStrings);
      ReadBack(b, Struct(), t, toks, es);
    }

    /** fdt_finish (lines 337-384). What the walker then reads is what the
        successful calls wrote, in order. */
    method Finish() returns (r: int)
      requires Valid()
      modifies this`magic, this`totalsize, this`offStrings, this`sizeStruct, this`flags, buf
      ensures Valid()
      ensures old(ProbeStruct()) != 0 ==> r == old(ProbeStruct())
      ensures old(ProbeStruct()) == 0 ==> r == if 4 > Room(old(Value())) then -ERR_NOSPACE else 0
      ensures r != 0 ==> State() == old(State())
      ensures r == 0 ==> magic == FDT_MAGIC && HDR_SIZE <= offStruct && 0 <= sizeStruct && 0 <= sizeStrings
      ensures r == 0 ==> offStrings == offStruct + sizeStruct && totalsize == offStrings + sizeStrings <= buf.Length
      ensures r == 0 ==> Reads(buf[offStruct..offStrings], buf[offStrings..totalsize], es)
    {
      if ProbeStruct() != 0 {
        return ProbeStruct();
      }
      var ok := Seal();
      if !ok {
        return -ERR_NOSPACE;
      }
      Complete();
      return 0;
    }

    /** Everything after the terminator (lines 353-381). */
    method Complete()
      requires Fits(Value()) && Sealed(StructOf(Value()), TableOf(Value()), toks, es)
      modifies this`magic, this`totalsize, this`offStrings, this`flags, buf
      ensures magic == FDT_MAGIC && offStrings == offStruct + sizeStruct
      ensures totalsize == offStrings + sizeStrings <= buf.Length
      ensures Reads(buf[offStruct..offStrings], buf[offStrings..totalsize], es)
    {
      MoveStrings();
      FixOffsets();
      totalsize := offStrings + sizeStrings;
      flags := LAST_COMP_VERSION;
      magic := FDT_MAGIC;
    }
  }

  /** The test of fdt_add_string_ on 32-bit unsigned numbers (lines 257-260). */
  function NoRoom(totalsize: int, strtabsize: int, len: int, structTop: int): bool {
    (totalsize - (strtabsize + len)) % U32 < structTop
  }

  /** It tells the truth exactly when the subtraction does not wrap below the
      top of the structure block; a longer name passes the test and is copied to
      a place in front of the buffer. */
  lemma RoomTestExact(totalsize: int, strtabsize: int, len: int, structTop: int)
    requires 0 <= strtabsize && 0 < len && 0 <= structTop && strtabsize + structTop <= totalsize <= INT_MAX
    requires strtabsize + len < U32
    ensures (NoRoom(totalsize, strtabsize, len, structTop) <==> structTop + strtabsize + len > totalsize)
            <==> strtabsize + len <= totalsize || strtabsize + len - totalsize > U32 - structTop
  {
    var d := totalsize - (strtabsize + len);
    if d < 0 {
      assert d % U32 == d + U32;
    } else {
      assert d % U32 == d;
    }
  }

  /** A name longer than the buffer passes the test of an empty tree. */
  lemma RoomTestWraps()
    ensures !NoRoom(64, 0, 100, 64) && 64 + 0 + 100 > 64
  {
  }
}
