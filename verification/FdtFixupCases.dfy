/** Two overlays whose local fixups lead the stores of
    lib/libfdt/fdt_overlay.c:235-245 out of a property. */
module FdtFixupCases {
  import opened Bytes
  import opened FdtTags
  import opened FdtStream
  import opened FdtTrees
  import opened FdtLookup
  import opened FdtSearch
  import opened FdtRwTrees
  import opened FdtShape
  import opened FdtOverlay
  import opened FdtFixups
  import opened FdtFixupBounds
  import opened FdtRenumber

  const A: seq<byte> := [65]
  const X: seq<byte> := [120]

  lemma WordOffsets(w: int)
    requires 0 <= w < U32
    ensures Offsets(Word(w)) == [w]
  {
    WordReads(w);
    assert Word(w)[4..] == [];
    assert Offsets([]) == [];
  }

  /** One fixup for a property of four bytes. */
  lemma OneFixup(v: int, o: int, delta: int)
    requires 0 <= v < U32 && 0 <= o < U32 && 0 <= v + delta < U32 && 0 <= delta
    ensures ShiftProp([(X, Word(v))], X, Word(o), delta) == if o == 0 then Done([(X, Word(v + delta))]) else Stray
  {
    WordOffsets(o);
    OneProp(X, Word(v), X);
    if o == 0 {
      assert AllInside([0], 4);
      OneShift(v, delta);
      assert [(X, Word(v))][0 := (X, Word(v + delta))] == [(X, Word(v + delta))];
    } else {
      assert [o][0] + 4 > 4;
    }
  }

  lemma OneShift(v: int, delta: int)
    requires 0 <= v < U32 && 0 <= v + delta < U32 && 0 <= delta && AllInside([0], 4)
    ensures ShiftAll(Word(v), [0], delta) == Word(v + delta)
  {
    WordReads(v);
    ShiftFirst(Word(v), v, delta);
    assert [0][1..] == [];
  }

  lemma ShiftFirst(val: seq<byte>, v: int, delta: int)
    requires |val| == 4 && Get32(val, 0) == v && 0 <= v + delta < U32 && 0 <= delta
    ensures ShiftWord(val, 0, delta) == Word(v + delta)
  {
    WrapOnce(v + delta);
    OverwriteAll(val, Word(v + delta));
  }

  // --------------------------------------------------- a slot out of bounds

  /** The root has a property of four bytes, the fixups list its fifth. */
  function FarSlot(): Tree {
    Node([], [(X, Word(1))], [Node(LOCAL_FIXUPS, [(X, Word(4))], [])])
  }

  /** Shifting its reference stores outside the property. */
  lemma FarSlotStrays(delta: int)
    requires 0 <= delta < U32 - 1
    ensures Separate(FarSlot()) && UpdateRefs(FarSlot(), delta).Stray?
  {
    var t := FarSlot();
    var fix := t.children[0];
    assert NameMatches(LOCAL_FIXUPS, LOCAL_FIXUPS);
    assert FirstMatch(t.children, LOCAL_FIXUPS) == 0;
    assert SubAt(t, [0]) == fix;
    OneFixup(1, 4, delta);
    assert ShiftProps(t.props, fix.props, delta).Stray?;
    FixupsRead(t, delta);
  }

  // ------------------------------------------------- fixups for the fixups

  function Small(v: int): Tree
    requires 0 <= v < U32
  {
    Node(A, [(X, Word(v))], [])
  }

  /** __local_fixups__ with, in front of the fixup of A, one of __local_fixups__/A. */
  function Fixups(v: int): Tree
    requires 0 <= v < U32
  {
    Node(LOCAL_FIXUPS, [], [Node(LOCAL_FIXUPS, [], [Small(0)]), Small(v)])
  }

  function Nested(v: int): Tree
    requires 0 <= v < U32
  {
    Node([], [], [Small(1), Fixups(v)])
  }

  lemma Matches(v: int)
    requires 0 <= v < U32
    ensures FirstMatch(Nested(v).children, LOCAL_FIXUPS) == 1 && FirstMatch(Nested(v).children, A) == 0
    ensures FirstMatch(Fixups(v).children, A) == 1
  {
    var ts, fs := Nested(v).children, Fixups(v).children;
    assert NameMatches(LOCAL_FIXUPS, LOCAL_FIXUPS) && NameMatches(A, A);
    assert LOCAL_FIXUPS[0] != A[0];
    assert !NameMatches(LOCAL_FIXUPS, A) by { assert LOCAL_FIXUPS[..1] != A; }
    assert !NameMatches(A, LOCAL_FIXUPS);
    assert ts[1..] == [Fixups(v)] && fs[1..] == [Small(v)];
    assert FirstMatch([Fixups(v)], LOCAL_FIXUPS) == 0 && FirstMatch([Small(v)], A) == 0;
  }

  lemma NoPropsStep(t: Tree, p: Path, q: Path, shape: Tree, delta: int)
    requires ValidPath(t, p) && ValidPath(t, q) && Shape(SubAt(t, q)) == shape && SubAt(t, q).props == []
    ensures FixNode(t, p, q, shape, delta) == FixKids(t, p, q, 0, shape, delta)
  {
    assert FixProps(t, p, q, 0, delta) == Done(t);
  }

  /** The nodes of the example. */
  lemma NestedNodes(v: int)
    requires 0 <= v < U32
    ensures var t := Nested(v);
      && ValidPath(t, [0]) && SubAt(t, [0]) == Small(1)
      && ValidPath(t, [1]) && SubAt(t, [1]) == Fixups(v)
      && ValidPath(t, [1, 0]) && SubAt(t, [1, 0]) == Node(LOCAL_FIXUPS, [], [Small(0)])
      && ValidPath(t, [1, 1]) && SubAt(t, [1, 1]) == Small(v)
      && ValidPath(t, [1, 0, 0]) && SubAt(t, [1, 0, 0]) == Small(0)
  {
    assert [0][1..] == [] && [1][1..] == [] && [1, 0][1..] == [0] && [1, 1][1..] == [1] && [1, 0, 0][1..] == [0,
      0] && [0, 0][1..] == [0];
  }

  /** Following the first of the fixups changes the second. */
  lemma InnerFollowed()
    ensures ValidPath(Nested(0), [1]) && ValidPath(Nested(0), [1, 0])
    ensures FixNode(Nested(0), [1], [1, 0], Shape(SubAt(Nested(0), [1, 0])), 5) == Done(Nested(5))
  {
    var t := Nested(0);
    var q: Path := [1, 0];
    NestedNodes(0);
    var shape := Shape(SubAt(t, q));
    Matches(0);
    NoPropsStep(t, [1], q, shape, 5);
    KidStep(t, [1], q, 0, shape, 5);
    assert [1] + [1] == [1, 1] && q + [0] == [1, 0, 0];
    LeafFollowed(t, [1, 1], [1, 0, 0], shape.children[0], 0, 0, 5);
    NestedReplaced();
  }

  lemma NestedReplaced()
    ensures ValidPath(Nested(0), [1, 1]) && ReplaceAt(Nested(0), [1, 1], Small(5)) == Nested(5)
  {
    var t := Nested(0);
    assert [1, 1][1..] == [1] && [1][1..] == [];
    assert Fixups(0).children[1 := Small(5)] == Fixups(5).children;
    assert ReplaceAt(Fixups(0), [1], Small(5)) == Fixups(5);
    assert t.children[1 := Fixups(5)] == Nested(5).children;
  }

  /** A fixup leaf for a leaf. */
  lemma LeafFollowed(t: Tree, p: Path, q: Path, shape: Tree, v: int, o: int, delta: int)
    requires ValidPath(t, p) && ValidPath(t, q) && 0 <= v < U32 && 0 <= o < U32 && 0 <= delta && v + delta < U32
    requires SubAt(t, p) == Small(v) && SubAt(t, q) == Small(o) && Shape(Small(o)) == shape
    ensures o == 0 ==> FixNode(t, p, q, shape, delta) == Done(ReplaceAt(t, p, Small(v + delta)))
    ensures o != 0 ==> FixNode(t, p, q, shape, delta).Stray?
  {
    OneFixup(v, o, delta);
    if o == 0 {
      var u := WithProps(t, p, [(X, Word(v + delta))]);
      assert u == ReplaceAt(t, p, Small(v + delta));
      FixStep(t, p, q, 0, delta);
      assert FixProps(t, p, q, 0, delta) == FixProps(u, p, q, 1, delta) == Done(u);
      ShapeKids(Small(o), SubAt(u, q));
      assert shape.children == [];
    }
  }

  /** The fixups received list only slots inside their properties, each once; the
      ones that are read lead out of A's property. */
  lemma NestedStrays()
    ensures Clean(Nested(0), Nested(0).children[1]) && AllSlotsInside(Nested(0), Nested(0).children[1])
    ensures !Separate(Nested(0))
    ensures UpdateRefs(Nested(0), 5).Stray?
  {
    Matches(0);
    NestedClean();
    NestedNodes(0);
    OuterFollowed();
    SecondStrays();
  }

  lemma OuterFollowed()
    ensures ValidPath(Nested(0), [1]) && ValidPath(Nested(5), [1])
    ensures SubAt(Nested(0), [1]) == Fixups(0) && SubAt(Nested(5), [1]) == Fixups(5)
    ensures Shape(Fixups(5)) == Shape(Fixups(0)) && |Shape(Fixups(0)).children| == 2
    ensures FixNode(Nested(0), [], [1], Shape(Fixups(0)), 5) == FixKids(Nested(5), [], [1], 1, Shape(Fixups(0)), 5)
  {
    var t, u, shape := Nested(0), Nested(5), Shape(Fixups(0));
    NestedNodes(0);
    NestedNodes(5);
    Matches(0);
    NoPropsStep(t, [], [1], shape, 5);
    KidStep(t, [], [1], 0, shape, 5);
    assert [] + [1] == [1] && [1] + [0] == [1, 0];
    InnerFollowed();
  }

  lemma SecondStrays()
    requires ValidPath(Nested(5), [1]) && SubAt(Nested(5), [1]) == Fixups(5)
    requires Shape(Fixups(5)) == Shape(Fixups(0)) && |Shape(Fixups(0)).children| == 2
    ensures FixKids(Nested(5), [], [1], 1, Shape(Fixups(0)), 5).Stray?
  {
    var u, shape := Nested(5), Shape(Fixups(0));
    NestedNodes(5);
    Matches(5);
    KidStep(u, [], [1], 1, shape, 5);
    assert [] + [0] == [0] && [1] + [1] == [1, 1];
    LeafFollowed(u, [0], [1, 1], shape.children[1], 1, 5, 5);
  }

  lemma LeafClean(v: int)
    requires 0 <= v < U32
    ensures Clean(Small(v), Small(0)) && Fits(Small(v), Small(0))
  {
    WordOffsets(0);
    assert X != PHANDLE && X != LINUX_PHANDLE by { assert |X| == 1; }
    OneProp(X, Word(v), X);
    WordReads(0);
  }

  lemma NestedClean()
    ensures Clean(Nested(0), Fixups(0)) && AllSlotsInside(Nested(0), Fixups(0)) && !Separate(Nested(0))
  {
    var t, fix, inner := Nested(0), Fixups(0), Node(LOCAL_FIXUPS, [], [Small(0)]);
    Matches(0);
    LeafClean(0);
    LeafClean(1);
    assert Clean(fix, inner) && Fits(fix, inner);
    FitsEverywhere(t, fix);
  }

  // ------------------------------------ the same fixups the other way round

  function Inner(): Tree { Node(LOCAL_FIXUPS, [], [Small(0)]) }

  /** __local_fixups__ with the fixup of __local_fixups__/A behind that of A. */
  function LateFixups(w: int): Tree
    requires 0 <= w < U32
  {
    Node(LOCAL_FIXUPS, [], [Small(w), Inner()])
  }

  function Late(v: int, w: int): Tree
    requires 0 <= v < U32 && 0 <= w < U32
  {
    Node([], [], [Small(v), LateFixups(w)])
  }

  lemma LateMatches(v: int, w: int)
    requires 0 <= v < U32 && 0 <= w < U32
    ensures FirstMatch(Late(v, w).children, LOCAL_FIXUPS) == 1 && FirstMatch(Late(v, w).children, A) == 0
    ensures FirstMatch(LateFixups(w).children, A) == 0
  {
    var ts := Late(v, w).children;
    assert NameMatches(LOCAL_FIXUPS, LOCAL_FIXUPS) && NameMatches(A, A) && !NameMatches(A, LOCAL_FIXUPS);
    assert ts[1..] == [LateFixups(w)];
    assert FirstMatch([LateFixups(w)], LOCAL_FIXUPS) == 0;
  }

  lemma LateNodes(v: int, w: int)
    requires 0 <= v < U32 && 0 <= w < U32
    ensures var t := Late(v, w);
      && ValidPath(t, [0]) && SubAt(t, [0]) == Small(v)
      && ValidPath(t, [1]) && SubAt(t, [1]) == LateFixups(w)
      && ValidPath(t, [1, 0]) && SubAt(t, [1, 0]) == Small(w)
      && ValidPath(t, [1, 1]) && SubAt(t, [1, 1]) == Inner()
      && ValidPath(t, [1, 1, 0]) && SubAt(t, [1, 1, 0]) == Small(0)
  {
    assert [0][1..] == [] && [1][1..] == [] && [1, 0][1..] == [0] && [1, 1][1..] == [1];
    assert [1, 1, 0][1..] == [1, 0];
  }

  lemma LateReplaced()
    ensures ValidPath(Late(1, 0), [0]) && ReplaceAt(Late(1, 0), [0], Small(6)) == Late(6, 0)
    ensures ValidPath(Late(6, 0), [1, 0]) && ReplaceAt(Late(6, 0), [1, 0], Small(5)) == Late(6, 5)
  {
    assert [0][1..] == [] && [1, 0][1..] == [0];
    assert Late(1, 0).children[0 := Small(6)] == Late(6, 0).children;
    assert LateFixups(0).children[0 := Small(5)] == LateFixups(5).children;
    assert ReplaceAt(LateFixups(0), [0], Small(5)) == LateFixups(5);
    assert Late(6, 0).children[1 := LateFixups(5)] == Late(6, 5).children;
  }

  lemma LateInner()
    ensures ValidPath(Late(6, 0), [1]) && ValidPath(Late(6, 0), [1, 1]) && SubAt(Late(6, 0), [1, 1]) == Inner()
    ensures FixNode(Late(6, 0), [1], [1, 1], Shape(Inner()), 5) == Done(Late(6, 5))
  {
    var t, q, shape := Late(6, 0), [1, 1], Shape(Inner());
    LateNodes(6, 0);
    LateNodes(6, 5);
    LateMatches(6, 0);
    NoPropsStep(t, [1], q, shape, 5);
    KidStep(t, [1], q, 0, shape, 5);
    assert [1] + [0] == [1, 0] && q + [0] == [1, 1, 0];
    LateLeaf();
  }

  lemma LateLeaf()
    ensures ValidPath(Late(6, 0), [1, 0]) && ValidPath(Late(6, 0), [1, 1, 0])
    ensures SubAt(Late(6, 0), [1, 1, 0]) == Small(0)
    ensures FixNode(Late(6, 0), [1, 0], [1, 1, 0], Shape(Small(0)), 5) == Done(Late(6, 5))
  {
    LateNodes(6, 0);
    LeafFollowed(Late(6, 0), [1, 0], [1, 1, 0], Shape(Small(0)), 0, 0, 5);
    LateReplaced();
  }

  lemma LateFirst()
    ensures ValidPath(Late(1, 0), [1]) && SubAt(Late(1, 0), [1]) == LateFixups(0)
    ensures ValidPath(Late(6, 0), [1]) && SubAt(Late(6, 0), [1]) == LateFixups(0)
    ensures |Shape(LateFixups(0)).children| == 2
    ensures var shape := Shape(LateFixups(0));
      FixNode(Late(1, 0), [], [1], shape, 5) == FixKids(Late(6, 0), [], [1], 1, shape, 5)
  {
    var t, shape := Late(1, 0), Shape(LateFixups(0));
    LateNodes(1, 0);
    LateNodes(6, 0);
    LateMatches(1, 0);
    LateReplaced();
    NoPropsStep(t, [], [1], shape, 5);
    KidStep(t, [], [1], 0, shape, 5);
    assert [] + [0] == [0] && [1] + [0] == [1, 0];
    LeafFollowed(t, [0], [1, 0], shape.children[0], 1, 0, 5);
  }

  lemma LateSecond()
    requires ValidPath(Late(6, 0), [1]) && SubAt(Late(6, 0), [1]) == LateFixups(0)
    requires |Shape(LateFixups(0)).children| == 2
    ensures FixKids(Late(6, 0), [], [1], 1, Shape(LateFixups(0)), 5) == Done(Late(6, 5))
  {
    var u, shape := Late(6, 0), Shape(LateFixups(0));
    LateMatches(6, 0);
    KidStep(u, [], [1], 1, shape, 5);
    assert [] + [1] == [1] && [1] + [1] == [1, 1];
    LateInner();
  }

  lemma LateFollowed()
    ensures UpdateRefs(Late(1, 0), 5) == Done(Late(6, 5))
  {
    LateMatches(1, 0);
    LateFirst();
    LateSecond();
  }

  lemma LateAsked()
    ensures ShiftLocal(Late(1, 0), 5) == Done(Late(6, 5))
  {
    var t, fix := Late(1, 0), LateFixups(0);
    LateMatches(1, 0);
    LateMatches(6, 0);
    OneFixup(1, 0, 5);
    OneFixup(0, 0, 5);
    LeafShift(1);
    LeafShift(0);
    var fs, gs := fix.children[1..], Inner().children[1..];
    assert fs == [Inner()] && gs == [] && fs[1..] == [];
    assert ShiftKids(LateFixups(0).children, Inner().children, 5) == Done(LateFixups(5).children) by {
      assert LateFixups(0).children[0 := Small(5)] == LateFixups(5).children;
    }
    assert Shift(LateFixups(0), Inner(), 5) == Done(LateFixups(5));
    assert t.children[0 := Small(6)] == Late(6, 0).children;
    assert Late(6, 0).children[1 := LateFixups(5)] == Late(6, 5).children;
    assert ShiftKids(Late(6, 0).children, fs, 5) == Done(Late(6, 5).children);
  }

  lemma LeafShift(v: int)
    requires 0 <= v < U32 - 5
    ensures Shift(Small(v), Small(0), 5) == Done(Small(v + 5))
  {
    OneFixup(v, 0, 5);
    var fixes := Small(0).props;
    assert fixes[1..] == [];
  }

  /** Changing a fixup after it has been read does no harm: fixups need not be apart
      for the code to do what they ask for. */
  lemma LateHarmless()
    ensures !Separate(Late(1, 0)) && UpdateRefs(Late(1, 0), 5) == ShiftLocal(Late(1, 0), 5) == Done(Late(6, 5))
  {
    LateMatches(1, 0);
    LateFollowed();
    LateAsked();
    var ts, fixes := Late(1, 0).children, LateFixups(0).children;
    assert fixes[1..] == [Inner()];
    assert FixFor(ts, [Inner()], 1) == 0;
  }
}
