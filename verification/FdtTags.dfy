/** The structure block of a flattened device tree (section 5.4 of the
    Devicetree Specification v0.4) and the tag walker of lib/libfdt/fdt.c. The
    block is the byte sequence from off_dt_struct on, of length size_dt_struct. */
module FdtTags {
  import opened Bytes

  const BEGIN_NODE := 1
  const END_NODE := 2
  const PROP := 3
  const NOP := 4
  const END := 9

  const INT_MAX := 0x7FFF_FFFF

  const ERR_NOTFOUND := 1
  const ERR_NOSPACE := 3
  const ERR_BADOFFSET := 4
  const ERR_BADSTATE := 7
  const ERR_TRUNCATED := 8
  const ERR_BADSTRUCTURE := 11

  type Block = seq<byte>

  /** One tag with what follows it. */
  datatype Token =
    | Begin(name: seq<byte>)
    | Prop(nameoff: int, val: seq<byte>)
    | EndNode
    | Nop
    | Fin

  function TagOf(t: Token): int {
    match t
    case Begin(_) => BEGIN_NODE
    case Prop(_, _) => PROP
    case EndNode => END_NODE
    case Nop => NOP
    case Fin => END
  }

  function Size(t: Token): (n: int)
    ensures n >= 4
  {
    match t
    case Begin(name) => 4 + Align4(|name| + 1)
    case Prop(_, val) => 12 + Align4(|val|)
    case EndNode => 4
    case Nop => 4
    case Fin => 4
  }

  ghost predicate NoNul(s: seq<byte>) { 0 !in s }

  ghost predicate HoldsBody(b: Block, o: int, t: Token) {
    && 0 <= o && o + Size(t) <= |b| && Get32(b, o) == TagOf(t)
    && match t
       case Begin(name) => NoNul(name) && b[o + 4..o + 4 + |name|] == name && b[o + 4 + |name|] == 0
       case Prop(nameoff, val) => Get32(b, o + 4) == |val| && Get32(b, o + 8) == nameoff
       && b[o + 12..o + 12 + |val|] == val
       case EndNode => true
       case Nop => true
       case Fin => true
  }

  ghost predicate FoldedHolds(b: Block, o: int, t: Token, n: nat) {
    if n == 0 then HoldsBody(b, o, t) else FoldedHolds(b, o, t, n - 1)
  }

  /** The bytes of b from o on are token t; padding may hold anything. Folded so
      that the verifier looks inside only where `HoldsIs` is called. */
  ghost predicate Holds(b: Block, o: int, t: Token) {
    FoldedHolds(b, o, t, |b| + 4)
  }

  lemma {:induction false} FoldedHoldsIs(b: Block, o: int, t: Token, n: nat)
    ensures FoldedHolds(b, o, t, n) <==> HoldsBody(b, o, t)
  {
    if n > 0 { FoldedHoldsIs(b, o, t, n - 1); }
  }

  lemma HoldsIs(b: Block, o: int, t: Token)
    ensures Holds(b, o, t) <==> HoldsBody(b, o, t)
  {
    FoldedHoldsIs(b, o, t, |b| + 4);
  }

  lemma HoldsBound(b: Block, o: int, t: Token)
    requires Holds(b, o, t)
    ensures 0 <= o && o + Size(t) <= |b|
  {
    HoldsIs(b, o, t);
  }

  // ------------------------------------------------------------ the walker

  /** The first NUL at or after o, -1 if there is none. */
  function NulFrom(b: Block, o: int): (e: int)
    requires 0 <= o
    ensures e == -1 || (o <= e < |b| && b[e] == 0)
    decreases |b| - o
  {
    if o >= |b| then -1 else if b[o] == 0 then o else NulFrom(b, o + 1)
  }

  /** fdt_next_tag (lib/libfdt/fdt.c:170-229): the tag and the next offset, or
      END and a negative error. */
  function NextTag(b: Block, start: int): (r: (int, int))
    ensures r.1 >= 0 ==> 0 <= start && start + 4 <= |b| && start + 4 <= r.1
  {
    if !(0 <= start && start + 4 <= |b|) then (END, -ERR_TRUNCATED)
    else
      var tag := Get32(b, start);
      if tag == BEGIN_NODE then
        var e := NulFrom(b, start + 4);
        if e < 0 then (END, -ERR_BADSTRUCTURE) else (BEGIN_NODE, Align4(e + 1))
      else if tag == PROP then
        if start + 8 > |b| then (END, -ERR_BADSTRUCTURE)
        else
          var len := Get32(b, start + 4);
          if len + start + 4 >= INT_MAX || start + 12 + len > |b| then (END, -ERR_BADSTRUCTURE)
          else (PROP, Align4(start + 12 + len))
      else if tag == END || tag == END_NODE || tag == NOP then (tag, Align4(start + 4))
      else (END, -ERR_BADSTRUCTURE)
  }

  /** fdt_next_tag as it runs: the name is skipped byte by byte. */
  method FdtNextTag(b: Block, start: int) returns (tag: int, next: int)
    requires |b| < U32
    ensures (tag, next) == NextTag(b, start)
  {
    if !(0 <= start && start + 4 <= |b|) {
      return END, -ERR_TRUNCATED;
    }
    tag := Get32(b, start);
    var offset := start + 4;
    if tag == BEGIN_NODE {
      while offset < |b| && b[offset] != 0
        invariant start + 4 <= offset <= |b| && NulFrom(b, start + 4) == NulFrom(b, offset)
      {
        offset := offset + 1;
      }
      if offset >= |b| {
        return END, -ERR_BADSTRUCTURE;
      }
      offset := offset + 1;
    } else if tag == PROP {
      if offset + 4 > |b| {
        return END, -ERR_BADSTRUCTURE;
      }
      var len := Get32(b, offset);
      var sum := (len + offset) % U32;
      SumWraps(len, offset);
      if INT_MAX <= sum || sum < offset {
        return END, -ERR_BADSTRUCTURE;
      }
      offset := offset + 8 + len;
    } else if tag != END && tag != END_NODE && tag != NOP {
      return END, -ERR_BADSTRUCTURE;
    }
    if offset > |b| {
      return END, -ERR_BADSTRUCTURE;
    }
    next := Align4(offset);
  }

  /** The wrapped 32-bit sum passes both tests exactly when the true sum is small. */
  lemma SumWraps(len: int, offset: int)
    requires 0 <= len < U32 && 0 <= offset < U32
    ensures var sum := (len + offset) % U32; INT_MAX <= sum || sum < offset <==> len + offset >= INT_MAX
  {
    if len + offset >= U32 {
      assert (len + offset) % U32 == len + offset - U32;
    }
  }

  lemma {:induction false} NulAfter(b: Block, o: int, name: seq<byte>)
    requires 0 <= o && o + |name| < |b| && b[o..o + |name|] == name && NoNul(name) && b[o + |name|] == 0
    ensures NulFrom(b, o) == o + |name|
    decreases |name|
  {
    if name != [] {
      assert b[o] == b[o..o + |name|][0] == name[0];
      assert b[o + 1..o + |name|] == name[1..];
      NulAfter(b, o + 1, name[1..]);
    }
  }

  lemma {:induction false} NulFirst(b: Block, o: int)
    requires 0 <= o <= |b|
    ensures var e := NulFrom(b, o); NoNul(b[o..if e < 0 then |b| else e])
    decreases |b| - o
  {
    var e := NulFrom(b, o);
    if o < |b| && b[o] != 0 {
      NulFirst(b, o + 1);
      var f := if e < 0 then |b| else e;
      assert b[o..f] == [b[o]] + b[o + 1..f];
    }
  }

  lemma AlignUp(x: int)
    ensures x <= Align4(x) < x + 4 && Align4(x) % 4 == 0
  {
  }

  lemma AlignShift(x: int, y: int)
    requires x % 4 == 0
    ensures Align4(x + y) == x + Align4(y)
  {
  }

  /** The walker steps over a token that is there. */
  lemma NextTagHolds(b: Block, o: int, t: Token)
    requires Holds(b, o, t) && o % 4 == 0 && |b| <= INT_MAX
    ensures NextTag(b, o) == (TagOf(t), o + Size(t))
  {
    HoldsIs(b, o, t);
    match t
    case Begin(name) =>
      NulAfter(b, o + 4, name);
      AlignShift(o + 4, |name| + 1);
    case Prop(_, val) =>
      AlignShift(o + 12, |val|);
      AlignUp(|val|);
    case _ =>
      AlignShift(o, 4);
  }

  /** The token at an offset where the walker makes a step. */
  function TokenAt(b: Block, o: int): (t: Token)
    requires NextTag(b, o).1 >= 0
    ensures TagOf(t) == NextTag(b, o).0
  {
    var tag := Get32(b, o);
    if tag == BEGIN_NODE then Begin(b[o + 4..NulFrom(b, o + 4)])
    else if tag == PROP then var len := Get32(b, o + 4); PropAt(b, o, len)
    else if tag == END_NODE then EndNode
    else if tag == NOP then Nop
    else Fin
  }

  /** A property at o; a name offset that would lie past the end of the block
      can not be there, the value ends before it does. */
  function PropAt(b: Block, o: int, len: int): (t: Token)
    requires 0 <= o && 0 <= len && o + 12 + len <= |b|
    ensures t.Prop?
  {
    Prop(Get32(b, o + 8), b[o + 12..o + 12 + len])
  }

  lemma BeginHolds(b: Block, o: int)
    requires o % 4 == 0 && 0 <= NextTag(b, o).1 <= |b| && NextTag(b, o).0 == BEGIN_NODE
    ensures Holds(b, o, TokenAt(b, o)) && NextTag(b, o).1 == o + Size(TokenAt(b, o))
  {
    var e := NulFrom(b, o + 4);
    NulFirst(b, o + 4);
    AlignShift(o + 4, e + 1 - (o + 4));
    HoldsIs(b, o, TokenAt(b, o));
  }

  lemma PropHolds(b: Block, o: int)
    requires o % 4 == 0 && 0 <= NextTag(b, o).1 <= |b| && NextTag(b, o).0 == PROP
    ensures Holds(b, o, TokenAt(b, o)) && NextTag(b, o).1 == o + Size(TokenAt(b, o))
  {
    AlignShift(o + 12, Get32(b, o + 4));
    HoldsIs(b, o, TokenAt(b, o));
  }

  /** Where the walker makes a step that ends inside the block, there is a token. */
  lemma TokenHolds(b: Block, o: int)
    requires o % 4 == 0 && 0 <= NextTag(b, o).1 <= |b|
    ensures Holds(b, o, TokenAt(b, o)) && NextTag(b, o) == (TagOf(TokenAt(b, o)), o + Size(TokenAt(b, o)))
  {
    if NextTag(b, o).0 == BEGIN_NODE {
      BeginHolds(b, o);
    } else if NextTag(b, o).0 == PROP {
      PropHolds(b, o);
    } else {
      AlignShift(o, 4);
      HoldsIs(b, o, TokenAt(b, o));
    }
  }

  /** At most one token is at an offset. */
  lemma HoldsUnique(b: Block, o: int, t: Token, u: Token)
    requires Holds(b, o, t) && Holds(b, o, u)
    ensures t == u
  {
    HoldsIs(b, o, t);
    HoldsIs(b, o, u);
    match t
    case Begin(name) =>
      NulAfter(b, o + 4, name);
      NulAfter(b, o + 4, u.name);
    case _ =>
  }

  lemma NameMoved(b: Block, c: Block, o: int, p: int, name: seq<byte>)
    requires 0 <= o && o + |name| < |b| && 0 <= p && p + |name| < |c| && b[o..o + |name| + 1] == c[p..p + |name| + 1]
    ensures b[o..o + |name|] == c[p..p + |name|] && b[o + |name|] == c[p + |name|]
  {
    SubSlice(b, c, o, p, |name| + 1, 0, |name|);
    assert b[o + |name|] == b[o..o + |name| + 1][|name|];
    assert c[p + |name|] == c[p..p + |name| + 1][|name|];
  }

  lemma WordMoved(b: Block, c: Block, o: int, p: int, n: int, x: int)
    requires 0 <= x && x + 4 <= n && 0 <= o && o + n <= |b| && 0 <= p && p + n <= |c| && b[o..o + n] == c[p..p + n]
    ensures Get32(b, o + x) == Get32(c, p + x)
  {
    SubSlice(b, c, o, p, n, x, x + 4);
    SameWord(b, c, o + x, p + x);
  }

  lemma BeginMoved(b: Block, c: Block, o: int, p: int, name: seq<byte>)
    requires HoldsBody(b, o, Begin(name)) && 0 <= p && p + Size(Begin(name)) <= |c|
    requires b[o..o + Size(Begin(name))] == c[p..p + Size(Begin(name))]
    ensures HoldsBody(c, p, Begin(name))
  {
    var n := Size(Begin(name));
    AlignUp(|name| + 1);
    WordMoved(b, c, o, p, n, 0);
    SubSlice(b, c, o, p, n, 4, 5 + |name|);
    NameMoved(b, c, o + 4, p + 4, name);
  }

  lemma PropMoved(b: Block, c: Block, o: int, p: int, nameoff: int, val: seq<byte>)
    requires HoldsBody(b, o, Prop(nameoff, val)) && 0 <= p && p + Size(Prop(nameoff, val)) <= |c|
    requires b[o..o + Size(Prop(nameoff, val))] == c[p..p + Size(Prop(nameoff, val))]
    ensures HoldsBody(c, p, Prop(nameoff, val))
  {
    var n := Size(Prop(nameoff, val));
    AlignUp(|val|);
    WordMoved(b, c, o, p, n, 0);
    WordMoved(b, c, o, p, n, 4);
    WordMoved(b, c, o, p, n, 8);
    SubSlice(b, c, o, p, n, 12, 12 + |val|);
  }

  /** Tokens depend only on the bytes they cover. */
  lemma HoldsMoved(b: Block, c: Block, o: int, p: int, t: Token)
    requires Holds(b, o, t) && 0 <= o && o + Size(t) <= |b| && 0 <= p && p + Size(t) <= |c|
    requires b[o..o + Size(t)] == c[p..p + Size(t)]
    ensures Holds(c, p, t)
  {
    HoldsIs(b, o, t);
    HoldsIs(c, p, t);
    match t
    case Begin(name) => BeginMoved(b, c, o, p, name);
    case Prop(nameoff, val) => PropMoved(b, c, o, p, nameoff, val);
    case _ => WordMoved(b, c, o, p, 4, 0);
  }

  lemma SubSlice(b: Block, c: Block, o: int, p: int, n: int, x: int, y: int)
    requires 0 <= x <= y <= n && 0 <= o && o + n <= |b| && 0 <= p && p + n <= |c| && b[o..o + n] == c[p..p + n]
    ensures b[o + x..o + y] == c[p + x..p + y]
  {
    SliceOfSlice(b, o, n, x, y);
    SliceOfSlice(c, p, n, x, y);
  }

  // ------------------------------------------------------- runs of tokens

  function SizeAll(ts: seq<Token>): (n: int)
    ensures n >= 4 * |ts|
  {
    if ts == [] then 0 else Size(ts[0]) + SizeAll(ts[1..])
  }

  ghost predicate LaidBody(b: Block, o: int, ts: seq<Token>)
    decreases |ts|
  {
    ts == [] || (Holds(b, o, ts[0]) && LaidBody(b, o + Size(ts[0]), ts[1..]))
  }

  ghost predicate FoldedLaid(b: Block, o: int, ts: seq<Token>, n: nat) {
    if n == 0 then LaidBody(b, o, ts) else FoldedLaid(b, o, ts, n - 1)
  }

  /** The tokens ts follow one another from o on. Folded; see `LaidIs`. */
  ghost predicate Laid(b: Block, o: int, ts: seq<Token>) {
    FoldedLaid(b, o, ts, |b| + 4)
  }

  lemma {:induction false} FoldedLaidIs(b: Block, o: int, ts: seq<Token>, n: nat)
    ensures FoldedLaid(b, o, ts, n) <==> LaidBody(b, o, ts)
  {
    if n > 0 { FoldedLaidIs(b, o, ts, n - 1); }
  }

  lemma LaidNil(b: Block, o: int)
    ensures Laid(b, o, [])
  {
    FoldedLaidIs(b, o, [], |b| + 4);
  }

  lemma LaidCons(b: Block, o: int, ts: seq<Token>)
    requires ts != []
    ensures Laid(b, o, ts) <==> Holds(b, o, ts[0]) && Laid(b, o + Size(ts[0]), ts[1..])
  {
    FoldedLaidIs(b, o, ts, |b| + 4);
    FoldedLaidIs(b, o + Size(ts[0]), ts[1..], |b| + 4);
  }

  lemma LaidOne(b: Block, o: int, t: Token)
    ensures Laid(b, o, [t]) <==> Holds(b, o, t)
  {
    LaidCons(b, o, [t]);
    assert [t][1..] == [];
    LaidNil(b, o + Size(t));
  }

  lemma SizeMod(t: Token)
    ensures Size(t) % 4 == 0
  {
    match t
    case Begin(name) => AlignUp(|name| + 1);
    case Prop(_, val) => AlignUp(|val|);
    case _ =>
  }

  lemma SumMod(x: int, y: int)
    requires x % 4 == 0 && y % 4 == 0
    ensures (x + y) % 4 == 0
  {
  }

  lemma {:induction false} SizeAllMod(ts: seq<Token>)
    ensures SizeAll(ts) % 4 == 0
  {
    if ts != [] {
      SizeMod(ts[0]);
      SizeAllMod(ts[1..]);
      SumMod(Size(ts[0]), SizeAll(ts[1..]));
    }
  }

  lemma {:induction false} SizeAppend(a: seq<Token>, c: seq<Token>)
    ensures SizeAll(a + c) == SizeAll(a) + SizeAll(c)
  {
    if a == [] {
      assert a + c == c;
    } else {
      assert (a + c)[1..] == a[1..] + c;
      SizeAppend(a[1..], c);
    }
  }

  lemma {:induction false} LaidAppend(b: Block, o: int, a: seq<Token>, c: seq<Token>)
    ensures Laid(b, o, a + c) <==> Laid(b, o, a) && Laid(b, o + SizeAll(a), c)
    decreases |a|
  {
    if a == [] {
      assert a + c == c;
      LaidNil(b, o);
    } else {
      assert (a + c)[0] == a[0] && (a + c)[1..] == a[1..] + c;
      LaidCons(b, o, a);
      LaidCons(b, o, a + c);
      LaidAppend(b, o + Size(a[0]), a[1..], c);
    }
  }

  /** A run of tokens keeps its place when the bytes it covers stay. */
  lemma {:induction false} LaidMoved(b: Block, c: Block, o: int, p: int, ts: seq<Token>)
    requires Laid(b, o, ts) && 0 <= o && 0 <= p && p + SizeAll(ts) <= |c| && o + SizeAll(ts) <= |b|
    requires b[o..o + SizeAll(ts)] == c[p..p + SizeAll(ts)]
    ensures Laid(c, p, ts)
    decreases |ts|
  {
    if ts == [] {
      LaidNil(c, p);
    } else {
      var n := SizeAll(ts);
      LaidCons(b, o, ts);
      LaidCons(c, p, ts);
      SubSlice(b, c, o, p, n, 0, Size(ts[0]));
      HoldsMoved(b, c, o, p, ts[0]);
      SubSlice(b, c, o, p, n, Size(ts[0]), n);
      LaidMoved(b, c, o + Size(ts[0]), p + Size(ts[0]), ts[1..]);
    }
  }

  lemma {:induction false} LaidBound(b: Block, o: int, ts: seq<Token>)
    requires Laid(b, o, ts) && ts != []
    ensures 0 <= o && o + SizeAll(ts) <= |b|
    decreases |ts|
  {
    LaidCons(b, o, ts);
    HoldsBound(b, o, ts[0]);
    if |ts| > 1 {
      LaidBound(b, o + Size(ts[0]), ts[1..]);
    }
  }
}
