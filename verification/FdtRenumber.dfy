/** What renumbering an overlay achieves (lib/libfdt/fdt_overlay.c:101-306): its
    phandles are apart from those of the base, and its references name the nodes
    they named. */
module FdtRenumber {
  import opened Bytes
  import opened FdtTags
  import opened FdtStream
  import opened FdtTrees
  import opened FdtSearch
  import opened FdtRwTrees
  import opened FdtShape
  import opened FdtOverlay
  import opened FdtFixups

  /** The offsets listed under __local_fixups__ for a property of the node at q. */
  ghost function Slots(t: Tree, q: Path, name: seq<byte>): seq<int>
    requires ValidPath(t, q)
  {
    var k := FirstMatch(t.children, LOCAL_FIXUPS);
    if k < 0 then [] else SlotsAt(t, t.children[k], q, name)
  }

  /** Fixups that list every slot once, no phandle property, and nothing of their own. */
  ghost predicate CleanFixups(t: Tree) {
    var k := FirstMatch(t.children, LOCAL_FIXUPS);
    Separate(t) && (k >= 0 ==> Clean(t, t.children[k]))
  }

  lemma UpdatedAt(t: Tree, delta: int, q: Path, name: seq<byte>)
    requires UpdateRefs(t, delta).Done? && CleanFixups(t) && ValidPath(t, q)
    ensures var t' := UpdateRefs(t, delta).value;
      ValidPath(t', q)
      && Shifted(ValueIn(SubAt(t, q).props, name), ValueIn(SubAt(t', q).props, name), Slots(t, q, name), delta)
  {
    var k := FirstMatch(t.children, LOCAL_FIXUPS);
    FixupsRead(t, delta);
    if k < 0 {
      Unshifted(ValueIn(SubAt(t, q).props, name), delta);
    } else {
      ShiftAt(t, t.children[k], delta, q, name);
    }
  }

  /** Fixups that name no phandle property list no slot in one. */
  lemma {:induction false} NoPhandleSlots(t: Tree, fix: Tree, q: Path, name: seq<byte>)
    requires Clean(t, fix) && ValidPath(t, q) && IsPhandle(name)
    ensures SlotsAt(t, fix, q, name) == []
    decreases |q|
  {
    if q != [] {
      var m := FixFor(t.children, fix.children, q[0]);
      if m >= 0 { NoPhandleSlots(t.children[q[0]], fix.children[m], q[1..], name); }
    }
  }

  lemma {:induction false} SlotsSpaced(t: Tree, fix: Tree, q: Path, name: seq<byte>)
    requires Clean(t, fix) && ValidPath(t, q)
    ensures Spaced(SlotsAt(t, fix, q, name))
    decreases |q|
  {
    if q != [] {
      var m := FixFor(t.children, fix.children, q[0]);
      if m >= 0 { SlotsSpaced(t.children[q[0]], fix.children[m], q[1..], name); }
    }
  }

  // ------------------------------- the phandle step leaves fixups as they are

  lemma NoPhandles(ps: Props, delta: int)
    requires 0 <= delta < U32 && forall i :: 0 <= i < |ps| ==> !IsPhandle(ps[i].0)
    ensures AdjustProps(ps, delta) == Done(ps)
  {
  }

  lemma AdjustedNames(ts: seq<Tree>, delta: int)
    requires 0 <= delta < U32 && AdjustAll(ts, delta).Done?
    ensures SameNames(ts, AdjustAll(ts, delta).value)
  {
    forall i | 0 <= i < |ts|
      ensures AdjustAll(ts, delta).value[i].name == ts[i].name
    {
      AdjustChild(ts, delta, i);
    }
  }

  /** The parts of a tree and of what adjusting makes of it. */
  lemma AdjustedParts(t: Tree, t': Tree, delta: int)
    requires 0 <= delta < U32 && Adjust(t, delta) == Done(t')
    ensures SameNames(t.children, t'.children) && AdjustProps(t.props, delta) == Done(t'.props)
    ensures forall i {:trigger t'.children[i]} ::
      0 <= i < |t.children| ==> Adjust(t.children[i], delta) == Done(t'.children[i])
  {
    AdjustedNames(t.children, delta);
    forall i | 0 <= i < |t.children|
      ensures Adjust(t.children[i], delta) == Done(t'.children[i])
    {
      AdjustChild(t.children, delta, i);
    }
  }

  lemma {:induction false} FixForNames(ts: seq<Tree>, us: seq<Tree>, fixes: seq<Tree>, gs: seq<Tree>, i: int)
    requires SameNames(ts, us) && SameNames(fixes, gs)
    ensures FixFor(us, gs, i) == FixFor(ts, fixes, i)
    decreases |fixes|
  {
    if fixes != [] {
      assert gs[0].name == fixes[0].name;
      MatchSame(ts, us, fixes[0].name);
      FixForNames(ts, us, fixes[1..], gs[1..], i);
    }
  }

  lemma {:induction false} CleanAdjusted(t: Tree, t': Tree, fix: Tree, fix': Tree, delta: int)
    requires 0 <= delta < U32 && Clean(t, fix) && Adjust(t, delta) == Done(t') && Adjust(fix, delta) == Done(fix')
    ensures Clean(t', fix') && fix'.props == fix.props
    decreases fix
  {
    AdjustedParts(t, t', delta);
    AdjustedParts(fix, fix', delta);
    NoPhandles(fix.props, delta);
    forall a | 0 <= a < |fix.children|
      ensures FirstMatch(t'.children, fix'.children[a].name) == FirstMatch(t.children, fix.children[a].name)
    {
      MatchSame(t.children, t'.children, fix.children[a].name);
    }
    forall a | 0 <= a < |fix'.children|
      ensures var k := FirstMatch(t'.children, fix'.children[a].name);
        k >= 0 ==> Clean(t'.children[k], fix'.children[a])
    {
      var k := FirstMatch(t.children, fix.children[a].name);
      if k >= 0 { CleanAdjusted(t.children[k], t'.children[k], fix.children[a], fix'.children[a], delta); }
    }
  }

  lemma {:induction false} SlotsAdjusted(t: Tree, t': Tree, fix: Tree, fix': Tree, delta: int, q: Path, name: seq<byte>)
    requires 0 <= delta < U32 && Clean(t, fix) && Adjust(t, delta) == Done(t') && Adjust(fix, delta) == Done(fix')
    requires ValidPath(t, q) && ValidPath(t', q)
    ensures SlotsAt(t', fix', q, name) == SlotsAt(t, fix, q, name)
    decreases |q|
  {
    CleanAdjusted(t, t', fix, fix', delta);
    if q != [] {
      AdjustedParts(t, t', delta);
      AdjustedParts(fix, fix', delta);
      FixForNames(t.children, t'.children, fix.children, fix'.children, q[0]);
      var m := FixFor(t.children, fix.children, q[0]);
      if m >= 0 { SlotsAdjusted(t.children[q[0]], t'.children[q[0]], fix.children[m], fix'.children[m], delta, q[1..],
        name); }
    }
  }

  /** The fixups are clean afterwards too, and list the same slots. */
  lemma FixupsAdjusted(t: Tree, t': Tree, delta: int)
    requires 0 <= delta < U32 && CleanFixups(t) && Adjust(t, delta) == Done(t')
    ensures CleanFixups(t')
  {
    AdjustedParts(t, t', delta);
    MatchSame(t.children, t'.children, LOCAL_FIXUPS);
    var k := FirstMatch(t.children, LOCAL_FIXUPS);
    if k >= 0 {
      AdjustedParts(t.children[k], t'.children[k], delta);
      FixForNames(t.children, t'.children, t.children[k].children, t'.children[k].children, k);
      CleanAdjusted(t, t', t.children[k], t'.children[k], delta);
    }
  }

  lemma SlotsSame(t: Tree, t': Tree, delta: int, q: Path, name: seq<byte>)
    requires 0 <= delta < U32 && CleanFixups(t) && Adjust(t, delta) == Done(t') && ValidPath(t, q) && ValidPath(t', q)
    ensures Slots(t', q, name) == Slots(t, q, name)
  {
    AdjustedParts(t, t', delta);
    MatchSame(t.children, t'.children, LOCAL_FIXUPS);
    var k := FirstMatch(t.children, LOCAL_FIXUPS);
    if k >= 0 { SlotsAdjusted(t, t', t.children[k], t'.children[k], delta, q, name); }
  }

  // -------------------------------------------------------- both steps

  /** Both steps have succeeded on an overlay with clean fixups: from t to t1 by the
      phandles, from t1 to t2 by the references. */
  ghost predicate Renumbered(t: Tree, t1: Tree, t2: Tree, delta: int) {
    0 <= delta < U32 && Adjust(t, delta) == Done(t1) && UpdateRefs(t1, delta) == Done(t2) && CleanFixups(t)
  }

  /** The tree keeps its nodes. */
  lemma NodesKept(t: Tree, t1: Tree, t2: Tree, delta: int, q: Path)
    requires Renumbered(t, t1, t2, delta) && ValidPath(t, q)
    ensures ValidPath(t1, q) && ValidPath(t2, q)
  {
    AdjustAt(t, delta, q);
    FixupsAdjusted(t, t1, delta);
    UpdatedAt(t1, delta, q, PHANDLE);
  }

  /** The reference step leaves phandles alone. */
  lemma PhandleKept(t1: Tree, delta: int, q: Path)
    requires UpdateRefs(t1, delta).Done? && CleanFixups(t1) && ValidPath(t1, q)
    ensures var t2 := UpdateRefs(t1, delta).value;
      ValidPath(t2, q) && GetPhandle(SubAt(t2, q).props) == GetPhandle(SubAt(t1, q).props)
  {
    UpdatedAt(t1, delta, q, PHANDLE);
    UpdatedAt(t1, delta, q, LINUX_PHANDLE);
    var k := FirstMatch(t1.children, LOCAL_FIXUPS);
    if k >= 0 {
      NoPhandleSlots(t1, t1.children[k], q, PHANDLE);
      NoPhandleSlots(t1, t1.children[k], q, LINUX_PHANDLE);
    }
  }

  /** A node of the overlay that had a phandle has one larger by delta. */
  lemma PhandleRaised(t: Tree, t1: Tree, t2: Tree, delta: int, q: Path)
    requires Renumbered(t, t1, t2, delta) && ValidPath(t, q) && GetPhandle(SubAt(t, q).props) > 0
    ensures ValidPath(t2, q) && GetPhandle(SubAt(t2, q).props) == GetPhandle(SubAt(t, q).props) + delta <= MAX_PHANDLE
  {
    AdjustAt(t, delta, q);
    RaisedPhandle(SubAt(t, q).props, delta);
    FixupsAdjusted(t, t1, delta);
    PhandleKept(t1, delta, q);
  }

  /** After renumbering by the largest phandle of the base tree, every phandle of
      the overlay is a legal one above every phandle of the base. */
  lemma PhandleAbove(base: Tree, t: Tree, t1: Tree, t2: Tree, delta: int, q: Path, p: Path)
    requires Renumbered(t, t1, t2, delta) && delta == MaxPhandle(base) && ValidPath(t, q) && ValidPath(base, p)
    requires GetPhandle(SubAt(t, q).props) > 0
    ensures ValidPath(t2, q) && GetPhandle(SubAt(base, p).props) < GetPhandle(SubAt(t2, q).props) <= MAX_PHANDLE
  {
    MaxIsBound(base, p);
    PhandleRaised(t, t1, t2, delta, q);
  }

  /** Nodes have the same phandle exactly if they had before. */
  lemma PhandlesDistinct(t: Tree, t1: Tree, t2: Tree, delta: int, q: Path, r: Path)
    requires Renumbered(t, t1, t2, delta) && ValidPath(t, q) && ValidPath(t, r)
    requires GetPhandle(SubAt(t, q).props) > 0 && GetPhandle(SubAt(t, r).props) > 0
    ensures ValidPath(t2, q) && ValidPath(t2, r)
    ensures GetPhandle(SubAt(t2, q).props) == GetPhandle(SubAt(t2, r).props)
      <==> GetPhandle(SubAt(t, q).props) == GetPhandle(SubAt(t, r).props)
  {
    PhandleRaised(t, t1, t2, delta, q);
    PhandleRaised(t, t1, t2, delta, r);
  }

  /** The word at k of both values, and the second is the first plus delta. */
  ghost predicate WordRaised(v: Value, v': Value, k: int, delta: int) {
    && v.Found? && v'.Found? && 0 <= k && k + 4 <= |v.val| == |v'.val|
    && Get32(v'.val, k) == (Get32(v.val, k) + delta) % U32
  }

  lemma ShiftedWord(v: Value, v': Value, offs: seq<int>, delta: int, i: int)
    requires Shifted(v, v', offs, delta) && Spaced(offs) && 0 <= i < |offs|
    ensures WordRaised(v, v', offs[i], delta)
  {
    if v.Found? { ShiftAllAt(v.val, offs, delta, i); }
  }

  /** The phandle step leaves properties with slots alone. */
  lemma SlotUntouched(t: Tree, t1: Tree, delta: int, r: Path, name: seq<byte>)
    requires 0 <= delta < U32 && Adjust(t, delta) == Done(t1) && CleanFixups(t) && ValidPath(t, r)
    requires Slots(t, r, name) != []
    ensures ValidPath(t1, r)
    ensures ValueIn(SubAt(t1, r).props, name) == ValueIn(SubAt(t, r).props, name)
  {
    if IsPhandle(name) { NoPhandleSlots(t, t.children[FirstMatch(t.children, LOCAL_FIXUPS)], r, name); }
    AdjustAt(t, delta, r);
    AdjustPropsEffect(SubAt(t, r).props, delta, name);
  }

  /** A word listed in the fixups grows by delta. */
  lemma ReferenceRaised(t: Tree, t1: Tree, t2: Tree, delta: int, r: Path, name: seq<byte>, i: int)
    requires Renumbered(t, t1, t2, delta) && ValidPath(t, r) && 0 <= i < |Slots(t, r, name)|
    ensures ValidPath(t2, r)
    ensures WordRaised(ValueIn(SubAt(t, r).props, name), ValueIn(SubAt(t2, r).props, name), Slots(t, r, name)[i], delta)
  {
    SlotUntouched(t, t1, delta, r, name);
    SlotsSame(t, t1, delta, r, name);
    FixupsAdjusted(t, t1, delta);
    UpdatedAt(t1, delta, r, name);
    SlotsSpaced(t1, t1.children[FirstMatch(t1.children, LOCAL_FIXUPS)], r, name);
    ShiftedWord(ValueIn(SubAt(t1, r).props, name), ValueIn(SubAt(t2, r).props, name), Slots(t1, r, name), delta, i);
  }

  lemma SameAfter(v: Value, v': Value, k: int, delta: int, h: int)
    requires WordRaised(v, v', k, delta) && 0 <= delta && 0 <= h && h + delta < U32
    ensures Get32(v.val, k) == h <==> Get32(v'.val, k) == h + delta
  {
    WrapOnce(Get32(v.val, k) + delta);
  }

  /** A local reference names a node of the overlay exactly if it did before. */
  lemma ReferencesKept(t: Tree, t1: Tree, t2: Tree, delta: int, r: Path, name: seq<byte>, i: int, q: Path)
    requires Renumbered(t, t1, t2, delta) && ValidPath(t, r) && ValidPath(t, q) && 0 <= i < |Slots(t, r, name)|
    requires GetPhandle(SubAt(t, q).props) > 0
    ensures ValidPath(t2, r) && ValidPath(t2, q)
    ensures var k, v, v' := Slots(t, r, name)[i], ValueIn(SubAt(t, r).props, name), ValueIn(SubAt(t2, r).props, name);
      && WordRaised(v, v', k, delta)
      && (Get32(v.val, k) == GetPhandle(SubAt(t, q).props) <==> Get32(v'.val, k) == GetPhandle(SubAt(t2, q).props))
  {
    ReferenceRaised(t, t1, t2, delta, r, name, i);
    PhandleRaised(t, t1, t2, delta, q);
    assert 0 <= delta;
    SameAfter(ValueIn(SubAt(t, r).props, name), ValueIn(SubAt(t2, r).props, name), Slots(t, r, name)[i], delta,
      GetPhandle(SubAt(t, q).props));
  }

  // ------------------------------------------------- phandles that are zero

  ghost predicate HasPhandle(ps: Props) {
    ValueIn(ps, PHANDLE).Found? || ValueIn(ps, LINUX_PHANDLE).Found?
  }

  lemma ZeroStays(ps: Props, delta: int)
    requires 0 <= delta < U32 && AdjustProps(ps, delta).Done? && GetPhandle(ps) == 0
    ensures GetPhandle(AdjustProps(ps, delta).value) == if HasPhandle(ps) then delta else 0
  {
    var ps' := AdjustProps(ps, delta).value;
    AdjustPropsEffect(ps, delta, PHANDLE);
    AdjustPropsEffect(ps, delta, LINUX_PHANDLE);
    WordBack(ValueIn(ps, PHANDLE), ValueIn(ps', PHANDLE), delta);
    WordBack(ValueIn(ps, LINUX_PHANDLE), ValueIn(ps', LINUX_PHANDLE), delta);
  }

  /** The phandle of a node after both steps. */
  lemma PhandleAfter(t: Tree, t1: Tree, t2: Tree, delta: int, q: Path)
    requires Renumbered(t, t1, t2, delta) && ValidPath(t, q)
    ensures ValidPath(t2, q)
    ensures var h := GetPhandle(SubAt(t, q).props);
      GetPhandle(SubAt(t2, q).props) == if h > 0 || HasPhandle(SubAt(t, q).props) then h + delta else 0
  {
    AdjustAt(t, delta, q);
    FixupsAdjusted(t, t1, delta);
    PhandleKept(t1, delta, q);
    RaisedPhandle(SubAt(t, q).props, delta);
    if GetPhandle(SubAt(t, q).props) == 0 { ZeroStays(SubAt(t, q).props, delta); }
  }

  /** A node ends up above delta exactly if its phandle was not 0. */
  lemma AboveExactly(t: Tree, t1: Tree, t2: Tree, delta: int, q: Path)
    requires Renumbered(t, t1, t2, delta) && ValidPath(t, q)
    ensures ValidPath(t2, q) && (GetPhandle(SubAt(t2, q).props) > delta <==> GetPhandle(SubAt(t, q).props) > 0)
  {
    PhandleAfter(t, t1, t2, delta, q);
  }

  /** Node q of the overlay has the phandle of a node of the base. */
  ghost predicate Collides(base: Tree, t2: Tree, q: Path)
    requires ValidPath(t2, q)
  {
    GetPhandle(SubAt(t2, q).props) > 0
    && exists p :: ValidPath(base, p) && GetPhandle(SubAt(base, p).props) == GetPhandle(SubAt(t2, q).props)
  }

  /** Renumbering by the largest phandle of the base leaves a collision exactly at
      the nodes that have a phandle property, and it is 0. */
  lemma CollidesExactly(base: Tree, t: Tree, t1: Tree, t2: Tree, delta: int, q: Path)
    requires Renumbered(t, t1, t2, delta) && delta == MaxPhandle(base) > 0 && ValidPath(t, q)
    ensures ValidPath(t2, q)
    ensures Collides(base, t2, q) <==> HasPhandle(SubAt(t, q).props) && GetPhandle(SubAt(t, q).props) == 0
  {
    PhandleAfter(t, t1, t2, delta, q);
    var p := MaxAttained(base);
    forall r | ValidPath(base, r)
      ensures GetPhandle(SubAt(base, r).props) <= delta
    {
      MaxIsBound(base, r);
    }
  }

  lemma OneProp(name: seq<byte>, val: seq<byte>, other: seq<byte>)
    ensures PropIndex([(name, val)], other) == (if other == name then 0 else -1)
    ensures ValueIn([(name, val)], other) == if other == name then Found(val) else Missing(-ERR_NOTFOUND)
  {
    assert [(name, val)][1..] == [];
  }

  // ---------------------------------------------------------- two overlays

  function Leaf(name: seq<byte>, h: int): Tree
    requires 0 <= h < U32
  {
    Node([], [(name, Word(h))], [])
  }

  lemma LeafPhandle(name: seq<byte>, h: int)
    requires IsPhandle(name) && 0 <= h < U32
    ensures GetPhandle(Leaf(name, h).props) == h == MaxPhandle(Leaf(name, h))
  {
    WordReads(h);
    assert |PHANDLE| != |LINUX_PHANDLE|;
    OneProp(name, Word(h), PHANDLE);
    OneProp(name, Word(h), LINUX_PHANDLE);
  }

  lemma LeafAdjusted(name: seq<byte>, delta: int)
    requires IsPhandle(name) && 0 <= delta <= MAX_PHANDLE
    ensures AdjustProps([(name, Word(0))], delta) == Done([(name, Word(delta))])
  {
    WordReads(0);
    assert |PHANDLE| != |LINUX_PHANDLE|;
    OneProp(name, Word(0), PHANDLE);
    OneProp(name, Word(0), LINUX_PHANDLE);
    OneProp(name, Word(delta), LINUX_PHANDLE);
    assert [(name, Word(0))][0 := (name, Word(delta))] == [(name, Word(delta))];
  }

  /** A base whose root has phandle 1 and an overlay whose root has phandle 0,
      under either name: both end with phandle 1. */
  lemma ZeroCollides(name: seq<byte>)
    requires IsPhandle(name)
    ensures Renumbered(Leaf(name, 0), Leaf(name, 1), Leaf(name, 1), MaxPhandle(Leaf(PHANDLE, 1)))
    ensures Collides(Leaf(PHANDLE, 1), Leaf(name, 1), [])
  {
    LeafPhandle(PHANDLE, 1);
    LeafPhandle(name, 1);
    LeafAdjusted(name, 1);
    assert ValidPath(Leaf(PHANDLE, 1), []);
  }
}
