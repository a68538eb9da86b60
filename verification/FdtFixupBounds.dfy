/** When the shifting of local references stays inside the properties, and
    overlays on which it does not (lib/libfdt/fdt_overlay.c:201-306). */
module FdtFixupBounds {
  import opened Bytes
  import opened FdtTags
  import opened FdtStream
  import opened FdtTrees
  import opened FdtSearch
  import opened FdtRwTrees
  import opened FdtShape
  import opened FdtOverlay
  import opened FdtFixups

  // --------------------------------------------- a fixup node and its node

  /** The names on the way to the fixup node at r are found in the tree. */
  predicate Leads(t: Tree, fix: Tree, r: Path)
    requires ValidPath(fix, r)
    decreases |r|
  {
    r == [] ||
    (var m := FirstMatch(t.children, fix.children[r[0]].name);
    m >= 0 && Leads(t.children[m], fix.children[r[0]], r[1..]))
  }

  /** The node that the fixup node at r is for. */
  function Target(t: Tree, fix: Tree, r: Path): Tree
    requires ValidPath(fix, r) && Leads(t, fix, r)
    decreases |r|
  {
    if r == [] then t
    else Target(t.children[FirstMatch(t.children, fix.children[r[0]].name)], fix.children[r[0]], r[1..])
  }

  /** A fixup is a list of words for a property that is there. */
  predicate WellFormed(ps: Props, fx: (seq<byte>, seq<byte>)) {
    |fx.1| % 4 == 0 && PropIndex(ps, fx.0) >= 0
  }

  /** Every slot it lists is inside that property. */
  ghost predicate Inside(ps: Props, fx: (seq<byte>, seq<byte>))
    requires WellFormed(ps, fx)
  {
    forall o {:trigger Get32(fx.1, o)} :: 0 <= o && o + 4 <= |fx.1| && o % 4 == 0 ==>
      Get32(fx.1, o) + 4 <= |ps[PropIndex(ps, fx.0)].1|
  }

  ghost predicate PropsFit(ps: Props, fixes: Props) {
    forall i :: 0 <= i < |fixes| ==> WellFormed(ps, fixes[i]) && Inside(ps, fixes[i])
  }

  ghost predicate PropsNamed(ps: Props, fixes: Props) {
    forall i :: 0 <= i < |fixes| ==> WellFormed(ps, fixes[i])
  }

  /** The fixup node at r is for a node, and its fixups are for properties of that. */
  ghost predicate CompleteAt(t: Tree, fix: Tree, r: Path)
    requires ValidPath(fix, r)
  {
    Leads(t, fix, r) && PropsNamed(Target(t, fix, r).props, SubAt(fix, r).props)
  }

  /** ... and all their slots are inside those properties. */
  ghost predicate InsideAt(t: Tree, fix: Tree, r: Path)
    requires ValidPath(fix, r)
  {
    Leads(t, fix, r) && PropsFit(Target(t, fix, r).props, SubAt(fix, r).props)
  }

  ghost predicate Complete(t: Tree, fix: Tree) {
    forall r :: ValidPath(fix, r) ==> CompleteAt(t, fix, r)
  }

  ghost predicate AllSlotsInside(t: Tree, fix: Tree) {
    forall r :: ValidPath(fix, r) ==> InsideAt(t, fix, r)
  }

  // ------------------------------------------------------- one property list

  lemma {:induction false} OffsetsInside(val: seq<byte>, n: int)
    requires |val| % 4 == 0
    ensures AllInside(Offsets(val), n) <==> forall o {:trigger Get32(val, o)} ::
      0 <= o && o + 4 <= |val| && o % 4 == 0 ==> Get32(val, o) + 4 <= n
    decreases |val|
  {
    if val != [] {
      var rest := val[4..];
      OffsetsInside(rest, n);
      InsideCons(Get32(val, 0), Offsets(rest), n);
      forall o | 0 <= o && o + 4 <= |rest|
        ensures Get32(rest, o) == Get32(val, o + 4)
      {
      }
      if Get32(val, 0) + 4 <= n && forall o {:trigger Get32(rest, o)} :: 0 <= o && o + 4 <= |rest| && o % 4 == 0 ==>
        Get32(rest, o) + 4 <= n {
        forall o {:trigger Get32(val, o)} | 0 <= o && o + 4 <= |val| && o % 4 == 0
          ensures Get32(val, o) + 4 <= n
        {
          if o > 0 { assert Get32(rest, o - 4) + 4 <= n; }
        }
      }
      if forall o {:trigger Get32(val, o)} :: 0 <= o && o + 4 <= |val| && o % 4 == 0 ==> Get32(val, o) + 4 <= n {
        forall o {:trigger Get32(rest, o)} | 0 <= o && o + 4 <= |rest| && o % 4 == 0
          ensures Get32(rest, o) + 4 <= n
        {
          assert Get32(val, o + 4) + 4 <= n;
        }
      }
    }
  }

  lemma InsideCons(x: int, offs: seq<int>, n: int)
    requires x >= 0
    ensures AllInside([x] + offs, n) <==> x + 4 <= n && AllInside(offs, n)
  {
    var all := [x] + offs;
    if AllInside(all, n) {
      assert all[0] == x;
      forall i | 0 <= i < |offs|
        ensures 0 <= offs[i] && offs[i] + 4 <= n
      {
        assert all[i + 1] == offs[i];
      }
    }
  }

  lemma ShiftPropExactly(ps: Props, fx: (seq<byte>, seq<byte>), delta: int)
    ensures var r := ShiftProp(ps, fx.0, fx.1, delta);
      && (r.Failed? <==> !WellFormed(ps, fx))
      && (r.Done? <==> WellFormed(ps, fx) && Inside(ps, fx))
  {
    if |fx.1| % 4 == 0 && PropIndex(ps, fx.0) >= 0 {
      OffsetsInside(fx.1, |ps[PropIndex(ps, fx.0)].1|);
    }
  }

  /** Names and lengths decide. */
  lemma {:induction false} IndexSame(ps: Props, qs: Props, name: seq<byte>)
    requires BlankProps(qs) == BlankProps(ps)
    ensures PropIndex(qs, name) == PropIndex(ps, name)
  {
    BlankSame(ps, qs);
    if ps != [] {
      assert qs[0].0 == ps[0].0;
      BlankRest(ps, qs);
      IndexSame(ps[1..], qs[1..], name);
    }
  }

  lemma BlankRest(ps: Props, qs: Props)
    requires BlankProps(qs) == BlankProps(ps) && ps != [] && |qs| == |ps|
    ensures BlankProps(qs[1..]) == BlankProps(ps[1..])
  {
    assert BlankProps(ps)[1..] == BlankProps(ps[1..]) && BlankProps(qs)[1..] == BlankProps(qs[1..]);
  }

  lemma FitSame(ps: Props, qs: Props, fx: (seq<byte>, seq<byte>))
    requires BlankProps(qs) == BlankProps(ps)
    ensures WellFormed(qs, fx) <==> WellFormed(ps, fx)
    ensures WellFormed(ps, fx) ==> (Inside(qs, fx) <==> Inside(ps, fx))
  {
    IndexSame(ps, qs, fx.0);
    BlankSame(ps, qs);
    if WellFormed(ps, fx) {
      var k := PropIndex(ps, fx.0);
      assert |qs[k].1| == |ps[k].1|;
    }
  }

  lemma FitsSame(ps: Props, qs: Props, fixes: Props)
    requires BlankProps(qs) == BlankProps(ps)
    ensures PropsFit(qs, fixes) <==> PropsFit(ps, fixes)
    ensures PropsNamed(qs, fixes) <==> PropsNamed(ps, fixes)
  {
    forall i | 0 <= i < |fixes|
      ensures WellFormed(qs, fixes[i]) <==> WellFormed(ps, fixes[i])
      ensures WellFormed(ps, fixes[i]) ==> (Inside(qs, fixes[i]) <==> Inside(ps, fixes[i]))
    {
      FitSame(ps, qs, fixes[i]);
    }
  }

  lemma {:induction false} ShiftPropsExactly(ps: Props, fixes: Props, delta: int)
    ensures var r := ShiftProps(ps, fixes, delta);
      && (r.Done? <==> PropsFit(ps, fixes))
      && (PropsNamed(ps, fixes) ==> !r.Failed?)
      && (r.Done? ==> BlankProps(r.value) == BlankProps(ps))
    decreases |fixes|
  {
    if fixes != [] {
      var fx, rest := fixes[0], fixes[1..];
      ShiftPropExactly(ps, fx, delta);
      assert fixes == [fx] + rest;
      var r := ShiftProp(ps, fx.0, fx.1, delta);
      if r.Done? {
        ShiftPropShape(ps, fx.0, fx.1, delta);
        ShiftPropsExactly(r.value, rest, delta);
        FitsSame(ps, r.value, rest);
      }
      PropsFitCons(ps, fixes);
    }
  }

  lemma PropsFitCons(ps: Props, fixes: Props)
    requires fixes != []
    ensures PropsFit(ps, fixes) <==> WellFormed(ps, fixes[0]) && Inside(ps, fixes[0]) && PropsFit(ps, fixes[1..])
    ensures PropsNamed(ps, fixes) <==> WellFormed(ps, fixes[0]) && PropsNamed(ps, fixes[1..])
  {
    assert forall i :: 0 < i < |fixes| ==> fixes[1..][i - 1] == fixes[i];
  }

  // --------------------------------------------------------- the whole tree

  ghost predicate Fits(t: Tree, fix: Tree)
    decreases fix
  {
    && PropsFit(t.props, fix.props)
    && forall c :: 0 <= c < |fix.children| ==>
         var m := FirstMatch(t.children, fix.children[c].name); m >= 0 && Fits(t.children[m], fix.children[c])
  }

  ghost predicate AllNamed(t: Tree, fix: Tree)
    decreases fix
  {
    && PropsNamed(t.props, fix.props)
    && forall c :: 0 <= c < |fix.children| ==>
         var m := FirstMatch(t.children, fix.children[c].name); m >= 0 && AllNamed(t.children[m], fix.children[c])
  }

  lemma {:induction false} MatchShape(ts: seq<Tree>, us: seq<Tree>, name: seq<byte>)
    requires ShapeAll(us) == ShapeAll(ts)
    ensures |us| == |ts| && FirstMatch(us, name) == FirstMatch(ts, name)
  {
    ChildrenSame(ts, us);
    forall i | 0 <= i < |ts|
      ensures us[i].name == ts[i].name
    {
      assert Shape(us[i]) == Shape(ts[i]);
    }
    MatchSame(ts, us, name);
  }

  lemma {:induction false} TreeFitsSame(t: Tree, u: Tree, fix: Tree)
    requires Shape(u) == Shape(t)
    ensures Fits(u, fix) <==> Fits(t, fix)
    ensures AllNamed(u, fix) <==> AllNamed(t, fix)
    decreases fix
  {
    ShapeParts(t, u);
    FitsSame(t.props, u.props, fix.props);
    forall c | 0 <= c < |fix.children|
      ensures var m, n := FirstMatch(t.children, fix.children[c].name), FirstMatch(u.children, fix.children[c].name);
        m == n && (m >= 0 ==> (Fits(u.children[m], fix.children[c]) <==> Fits(t.children[m], fix.children[c]))
                              && (AllNamed(u.children[m], fix.children[c])
                                <==> AllNamed(t.children[m], fix.children[c])))
    {
      MatchShape(t.children, u.children, fix.children[c].name);
      var m := FirstMatch(t.children, fix.children[c].name);
      if m >= 0 {
        ChildrenSame(t.children, u.children);
        assert Shape(u.children[m]) == Shape(t.children[m]);
        TreeFitsSame(t.children[m], u.children[m], fix.children[c]);
      }
    }
  }

  ghost predicate KidsFit(ts: seq<Tree>, fixes: seq<Tree>) {
    forall c :: 0 <= c < |fixes| ==> var m := FirstMatch(ts, fixes[c].name); m >= 0 && Fits(ts[m], fixes[c])
  }

  ghost predicate KidsNamed(ts: seq<Tree>, fixes: seq<Tree>) {
    forall c :: 0 <= c < |fixes| ==> var m := FirstMatch(ts, fixes[c].name); m >= 0 && AllNamed(ts[m], fixes[c])
  }

  lemma KidsSame(ts: seq<Tree>, us: seq<Tree>, fixes: seq<Tree>)
    requires ShapeAll(us) == ShapeAll(ts)
    ensures KidsFit(us, fixes) <==> KidsFit(ts, fixes)
    ensures KidsNamed(us, fixes) <==> KidsNamed(ts, fixes)
  {
    ChildrenSame(ts, us);
    forall c | 0 <= c < |fixes|
      ensures var m := FirstMatch(ts, fixes[c].name);
        m == FirstMatch(us, fixes[c].name) && (m >= 0 ==> (Fits(us[m], fixes[c]) <==> Fits(ts[m], fixes[c]))
                                                           && (AllNamed(us[m], fixes[c])
                                                             <==> AllNamed(ts[m], fixes[c])))
    {
      MatchShape(ts, us, fixes[c].name);
      var m := FirstMatch(ts, fixes[c].name);
      if m >= 0 {
        assert Shape(us[m]) == Shape(ts[m]);
        TreeFitsSame(ts[m], us[m], fixes[c]);
      }
    }
  }

  lemma KidsCons(ts: seq<Tree>, fixes: seq<Tree>)
    requires fixes != []
    ensures var m := FirstMatch(ts, fixes[0].name);
      && (KidsFit(ts, fixes) <==> m >= 0 && Fits(ts[m], fixes[0]) && KidsFit(ts, fixes[1..]))
      && (KidsNamed(ts, fixes) <==> m >= 0 && AllNamed(ts[m], fixes[0]) && KidsNamed(ts, fixes[1..]))
  {
    assert forall c :: 0 < c < |fixes| ==> fixes[1..][c - 1] == fixes[c];
  }

  /** What the outcome says, on nodes and fixup nodes. */
  lemma {:induction false} ShiftFits(t: Tree, fix: Tree, delta: int)
    ensures var r := Shift(t, fix, delta);
      && (r.Done? <==> Fits(t, fix))
      && (AllNamed(t, fix) ==> !r.Failed?)
      && (r.Done? ==> Shape(r.value) == Shape(t))
    decreases fix, 1
  {
    ShiftPropsExactly(t.props, fix.props, delta);
    ShiftKidsFit(t.children, fix.children, delta);
    var r := Shift(t, fix, delta);
    if r.Done? { ShapeFrom(t, r.value); }
    assert Fits(t, fix) <==> PropsFit(t.props, fix.props) && KidsFit(t.children, fix.children);
    assert AllNamed(t, fix) <==> PropsNamed(t.props, fix.props) && KidsNamed(t.children, fix.children);
  }

  lemma {:induction false} ShiftKidsFit(ts: seq<Tree>, fixes: seq<Tree>, delta: int)
    ensures var r := ShiftKids(ts, fixes, delta);
      && (r.Done? <==> KidsFit(ts, fixes))
      && (KidsNamed(ts, fixes) ==> !r.Failed?)
      && (r.Done? ==> ShapeAll(r.value) == ShapeAll(ts))
    decreases fixes, 0
  {
    if fixes != [] {
      KidsCons(ts, fixes);
      var m := FirstMatch(ts, fixes[0].name);
      if m >= 0 {
        ShiftFits(ts[m], fixes[0], delta);
        var u := Shift(ts[m], fixes[0], delta);
        if u.Done? {
          ShapeUpdated(ts, m, u.value);
          ShiftKidsFit(ts[m := u.value], fixes[1..], delta);
          KidsSame(ts, ts[m := u.value], fixes[1..]);
        }
      }
    }
  }

  // ------------------------------------------------------- slot by slot

  lemma {:induction false} FitsEverywhere(t: Tree, fix: Tree)
    ensures Fits(t, fix) <==> AllSlotsInside(t, fix)
    decreases fix
  {
    if Fits(t, fix) {
      forall r | ValidPath(fix, r)
        ensures InsideAt(t, fix, r)
      {
        FitsAt(t, fix, r);
      }
    }
    if AllSlotsInside(t, fix) {
      InsideHere(t, fix);
      forall c | 0 <= c < |fix.children|
        ensures var m := FirstMatch(t.children, fix.children[c].name); m >= 0 && Fits(t.children[m], fix.children[c])
      {
        InsideBelow(t, fix, c);
        FitsEverywhere(t.children[FirstMatch(t.children, fix.children[c].name)], fix.children[c]);
      }
    }
  }

  lemma {:induction false} FitsAt(t: Tree, fix: Tree, r: Path)
    requires Fits(t, fix) && ValidPath(fix, r)
    ensures InsideAt(t, fix, r)
    decreases |r|
  {
    if r != [] {
      FitsAt(t.children[FirstMatch(t.children, fix.children[r[0]].name)], fix.children[r[0]], r[1..]);
    }
  }

  lemma InsideHere(t: Tree, fix: Tree)
    requires AllSlotsInside(t, fix)
    ensures PropsFit(t.props, fix.props)
  {
    assert ValidPath(fix, []) && InsideAt(t, fix, []);
  }

  lemma LeadsDown(t: Tree, fix: Tree, c: nat, r: Path)
    requires c < |fix.children| && ValidPath(fix.children[c], r)
    ensures ValidPath(fix, [c] + r) && SubAt(fix, [c] + r) == SubAt(fix.children[c], r)
    ensures var m := FirstMatch(t.children, fix.children[c].name);
      && (Leads(t, fix, [c] + r) <==> m >= 0 && Leads(t.children[m], fix.children[c], r))
      && (Leads(t, fix, [c] + r) ==> Target(t, fix, [c] + r) == Target(t.children[m], fix.children[c], r))
  {
    assert ([c] + r)[0] == c && ([c] + r)[1..] == r;
  }

  lemma InsideBelow(t: Tree, fix: Tree, c: nat)
    requires AllSlotsInside(t, fix) && c < |fix.children|
    ensures var m := FirstMatch(t.children, fix.children[c].name);
      m >= 0 && AllSlotsInside(t.children[m], fix.children[c])
  {
    var m := FirstMatch(t.children, fix.children[c].name);
    LeadsDown(t, fix, c, []);
    assert InsideAt(t, fix, [c] + []);
    forall r | ValidPath(fix.children[c], r)
      ensures InsideAt(t.children[m], fix.children[c], r)
    {
      LeadsDown(t, fix, c, r);
      assert InsideAt(t, fix, [c] + r);
    }
  }

  lemma {:induction false} NamedEverywhere(t: Tree, fix: Tree)
    requires Complete(t, fix)
    ensures AllNamed(t, fix)
    decreases fix
  {
    assert ValidPath(fix, []) && CompleteAt(t, fix, []);
    forall c | 0 <= c < |fix.children|
      ensures var m := FirstMatch(t.children, fix.children[c].name); m >= 0 && AllNamed(t.children[m], fix.children[c])
    {
      var m := FirstMatch(t.children, fix.children[c].name);
      LeadsDown(t, fix, c, []);
      assert CompleteAt(t, fix, [c] + []);
      forall r | ValidPath(fix.children[c], r)
        ensures CompleteAt(t.children[m], fix.children[c], r)
      {
        LeadsDown(t, fix, c, r);
        assert CompleteAt(t, fix, [c] + r);
      }
      NamedEverywhere(t.children[m], fix.children[c]);
    }
  }

  /** Shifting the references succeeds exactly if every fixup is for a property
      that is there and every slot is inside it. When only the latter fails, a
      store leaves its property. */
  lemma InsideExactly(t: Tree, delta: int)
    requires Separate(t)
    ensures var k := FirstMatch(t.children, LOCAL_FIXUPS);
      && (UpdateRefs(t, delta).Done? <==> k < 0 || AllSlotsInside(t, t.children[k]))
      && (k >= 0 && Complete(t, t.children[k]) ==> (UpdateRefs(t, delta).Stray? <==> !AllSlotsInside(t, t.children[k])))
  {
    var k := FirstMatch(t.children, LOCAL_FIXUPS);
    FixupsRead(t, delta);
    if k >= 0 {
      ShiftFits(t, t.children[k], delta);
      FitsEverywhere(t, t.children[k]);
      if Complete(t, t.children[k]) { NamedEverywhere(t, t.children[k]); }
    }
  }
}
