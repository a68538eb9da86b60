/** When renumbering an overlay succeeds, and with which error it fails
    (lib/libfdt/fdt_overlay.c:101-158, 201-306). */
module FdtPhandleFits {
  import opened Bytes
  import opened FdtTags
  import opened FdtStream
  import opened FdtTrees
  import opened FdtSearch
  import opened FdtRwTrees
  import opened FdtShape
  import opened FdtKids
  import opened FdtOverlay
  import opened FdtFixups
  import opened FdtFixupBounds
  import opened FdtRenumber

  // --------------------------------------------------------------- phandles

  /** A phandle property is one word, and stays legal when delta is added. */
  predicate PhandleFits(v: Value, delta: int) {
    v.Found? ==> |v.val| == 4 && Get32(v.val, 0) + delta <= MAX_PHANDLE
  }

  /** What is wrong with one. */
  function PhandleError(v: Value, delta: int): int {
    if PhandleFits(v, delta) then 0 else if |v.val| != 4 then -ERR_BADPHANDLE else -ERR_NOPHANDLES
  }

  /** What is wrong first with those of a node. */
  function NodeError(ps: Props, delta: int): int {
    var e := PhandleError(ValueIn(ps, PHANDLE), delta);
    if e != 0 then e else PhandleError(ValueIn(ps, LINUX_PHANDLE), delta)
  }

  /** Every phandle property of every node fits. */
  ghost predicate PhandlesFit(t: Tree, delta: int) {
    forall q, name :: ValidPath(t, q) && IsPhandle(name) ==> PhandleFits(ValueIn(SubAt(t, q).props, name), delta)
  }

  lemma AddExactly(ps: Props, name: seq<byte>, delta: int)
    requires 0 <= delta < U32
    ensures var r, v := AddIfThere(ps, name, delta), ValueIn(ps, name);
      if PhandleFits(v, delta) then r.Done? else r == Failed(PhandleError(v, delta))
  {
    var k := PropIndex(ps, name);
    if k >= 0 && |ps[k].1| == 4 { WrapOnce(Get32(ps[k].1, 0) + delta); }
  }

  lemma AdjustPropsExactly(ps: Props, delta: int)
    requires 0 <= delta < U32
    ensures var r, e := AdjustProps(ps, delta), NodeError(ps, delta); if e == 0 then r.Done? else r == Failed(e)
    ensures NodeError(ps, delta) == 0 <==>
      PhandleFits(ValueIn(ps, PHANDLE), delta) && PhandleFits(ValueIn(ps, LINUX_PHANDLE), delta)
  {
    AddExactly(ps, PHANDLE, delta);
    var r := AddIfThere(ps, PHANDLE, delta);
    if r.Done? {
      assert |PHANDLE| != |LINUX_PHANDLE|;
      AddEffect(ps, PHANDLE, delta, LINUX_PHANDLE);
      AddExactly(r.value, LINUX_PHANDLE, delta);
    }
  }

  /** No node has an error. */
  lemma NoErrorFits(t: Tree, delta: int)
    requires 0 <= delta < U32 && forall q :: ValidPath(t, q) ==> NodeError(SubAt(t, q).props, delta) == 0
    ensures PhandlesFit(t, delta)
  {
    forall q, name | ValidPath(t, q) && IsPhandle(name)
      ensures PhandleFits(ValueIn(SubAt(t, q).props, name), delta)
    {
      AdjustPropsExactly(SubAt(t, q).props, delta);
    }
  }

  lemma FitsNoError(t: Tree, delta: int, q: Path)
    requires 0 <= delta < U32 && PhandlesFit(t, delta) && ValidPath(t, q)
    ensures NodeError(SubAt(t, q).props, delta) == 0
  {
    assert IsPhandle(PHANDLE) && IsPhandle(LINUX_PHANDLE);
    AdjustPropsExactly(SubAt(t, q).props, delta);
  }

  /** When the step succeeds no node has an error. */
  lemma {:induction false} DoneHasNone(t: Tree, delta: int, q: Path)
    requires 0 <= delta < U32 && Adjust(t, delta).Done? && ValidPath(t, q)
    ensures NodeError(SubAt(t, q).props, delta) == 0
  {
    AdjustAt(t, delta, q);
    AdjustPropsExactly(SubAt(t, q).props, delta);
  }

  /** The first child that fails. */
  lemma {:induction false} FirstFailing(ts: seq<Tree>, delta: int) returns (k: nat)
    requires 0 <= delta < U32 && AdjustAll(ts, delta).Failed?
    ensures k < |ts| && Adjust(ts[k], delta) == Failed(AdjustAll(ts, delta).err)
    ensures forall j :: 0 <= j < k ==> Adjust(ts[j], delta).Done?
  {
    if Adjust(ts[0], delta).Failed? {
      k := 0;
    } else {
      var m := FirstFailing(ts[1..], delta);
      k := m + 1;
      forall j | 0 <= j < k
        ensures Adjust(ts[j], delta).Done?
      {
        if j > 0 { assert ts[j] == ts[1..][j - 1]; }
      }
    }
  }

  /** Node r comes before node q in the blob. */
  ghost predicate Earlier(t: Tree, r: Path, q: Path)
    requires ValidPath(t, r) && ValidPath(t, q)
  {
    |Before(t, r)| < |Before(t, q)|
  }

  /** In another child, earlier means in an earlier child. */
  lemma EarlierChild(t: Tree, r: Path, q: Path)
    requires ValidPath(t, r) && ValidPath(t, q) && r != [] && q != [] && Earlier(t, r, q)
    ensures r[0] < q[0] || (r[0] == q[0] && Earlier(t.children[q[0]], r[1..], q[1..]))
  {
    var c := t.children;
    BeforeInside(c[q[0]], q[1..]);
    if q[0] < r[0] { PrefixLength(c, q[0], r[0]); }
  }

  /** A step that fails has met a node with an error, gives that error, and no node
      in front of it has one. */
  lemma {:induction false} FirstOffender(t: Tree, delta: int) returns (q: Path)
    requires 0 <= delta < U32 && Adjust(t, delta).Failed?
    ensures ValidPath(t, q) && Adjust(t, delta).err == NodeError(SubAt(t, q).props, delta) != 0
    ensures forall r :: ValidPath(t, r) && Earlier(t, r, q) ==> NodeError(SubAt(t, r).props, delta) == 0
    decreases t
  {
    AdjustPropsExactly(t.props, delta);
    if AdjustProps(t.props, delta).Failed? {
      q := [];
    } else {
      var k := FirstFailing(t.children, delta);
      var p := FirstOffender(t.children[k], delta);
      q := [k] + p;
      assert q[1..] == p;
      forall r | ValidPath(t, r) && Earlier(t, r, q)
        ensures NodeError(SubAt(t, r).props, delta) == 0
      {
        if r != [] {
          EarlierChild(t, r, q);
          if r[0] < k { DoneHasNone(t.children[r[0]], delta, r[1..]); }
        }
      }
    }
  }

  /** The phandle step succeeds exactly if every phandle property fits. */
  lemma AdjustExactly(t: Tree, delta: int)
    requires 0 <= delta < U32
    ensures Adjust(t, delta).Done? <==> PhandlesFit(t, delta)
  {
    if Adjust(t, delta).Done? {
      forall q | ValidPath(t, q)
        ensures NodeError(SubAt(t, q).props, delta) == 0
      {
        DoneHasNone(t, delta, q);
      }
      NoErrorFits(t, delta);
    } else {
      var q := FirstOffender(t, delta);
      if PhandlesFit(t, delta) { FitsNoError(t, delta, q); }
    }
  }

  // --------------------------------------------------------------- both steps

  lemma RaisedLength(v: Value, v': Value, delta: int)
    requires 0 <= delta && Raised(v, v', delta)
    ensures v.Found? ==> v'.Found? && |v'.val| == |v.val|
  {
  }

  /** The phandle step keeps all names and lengths. */
  lemma AddShape(ps: Props, name: seq<byte>, delta: int)
    requires 0 <= delta < U32 && AddIfThere(ps, name, delta).Done?
    ensures BlankProps(AddIfThere(ps, name, delta).value) == BlankProps(ps)
  {
    var k := PropIndex(ps, name);
    if k >= 0 { BlankSet(ps, k, Word((Get32(ps[k].1, 0) + delta) % U32)); }
  }

  lemma AdjustPropsShape(ps: Props, delta: int)
    requires 0 <= delta < U32 && AdjustProps(ps, delta).Done?
    ensures BlankProps(AdjustProps(ps, delta).value) == BlankProps(ps)
  {
    AddShape(ps, PHANDLE, delta);
    AddShape(AddIfThere(ps, PHANDLE, delta).value, LINUX_PHANDLE, delta);
  }

  /** What the fixups ask for is inside the properties before the step exactly if it
      is after it. */
  lemma {:induction false} FitsAdjusted(t: Tree, t': Tree, fix: Tree, fix': Tree, delta: int)
    requires 0 <= delta < U32 && Clean(t, fix) && Adjust(t, delta) == Done(t') && Adjust(fix, delta) == Done(fix')
    ensures Fits(t', fix') <==> Fits(t, fix)
    decreases fix
  {
    AdjustedParts(t, t', delta);
    AdjustedParts(fix, fix', delta);
    CleanAdjusted(t, t', fix, fix', delta);
    AdjustPropsShape(t.props, delta);
    FitsSame(t.props, t'.props, fix.props);
    forall c | 0 <= c < |fix.children|
      ensures var m, n := FirstMatch(t.children, fix.children[c].name), FirstMatch(t'.children, fix'.children[c].name);
        m == n && (m >= 0 ==> (Fits(t'.children[m], fix'.children[c]) <==> Fits(t.children[m], fix.children[c])))
    {
      MatchSame(t.children, t'.children, fix.children[c].name);
      var m := FirstMatch(t.children, fix.children[c].name);
      if m >= 0 { FitsAdjusted(t.children[m], t'.children[m], fix.children[c], fix'.children[c], delta); }
    }
  }

  /** Every slot that the fixups of the overlay list is inside its property. */
  ghost predicate SlotsFit(t: Tree) {
    var k := FirstMatch(t.children, LOCAL_FIXUPS);
    k < 0 || AllSlotsInside(t, t.children[k])
  }

  lemma SlotsFitAfter(t: Tree, t': Tree, delta: int)
    requires 0 <= delta < U32 && CleanFixups(t) && Adjust(t, delta) == Done(t')
    ensures SlotsFit(t') <==> SlotsFit(t)
  {
    AdjustedParts(t, t', delta);
    MatchSame(t.children, t'.children, LOCAL_FIXUPS);
    var k := FirstMatch(t.children, LOCAL_FIXUPS);
    if k >= 0 {
      FitsAdjusted(t, t', t.children[k], t'.children[k], delta);
      FitsEverywhere(t, t.children[k]);
      FitsEverywhere(t', t'.children[k]);
    }
  }

  /** Both steps succeed on an overlay with clean fixups exactly if every phandle
      property fits and every slot is inside its property. */
  lemma RenumbersExactly(t: Tree, delta: int)
    requires 0 <= delta < U32 && CleanFixups(t)
    ensures (exists t1, t2 :: Renumbered(t, t1, t2, delta)) <==> PhandlesFit(t, delta) && SlotsFit(t)
    ensures Adjust(t, delta).Done? ==>
      (UpdateRefs(Adjust(t, delta).value, delta).Done? <==> PhandlesFit(t, delta) && SlotsFit(t))
  {
    AdjustExactly(t, delta);
    if Adjust(t, delta).Done? {
      var t1 := Adjust(t, delta).value;
      FixupsAdjusted(t, t1, delta);
      InsideExactly(t1, delta);
      SlotsFitAfter(t, t1, delta);
      if UpdateRefs(t1, delta).Done? { assert Renumbered(t, t1, UpdateRefs(t1, delta).value, delta); }
    }
  }
}
