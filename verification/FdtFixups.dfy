/** Shifting local references while the fixups are read from the same tree
    (lib/libfdt/fdt_overlay.c:201-306): when that does what the fixups received
    ask for, and when every store stays inside its property. */
module FdtFixups {
  import opened Bytes
  import opened FdtTags
  import opened FdtStream
  import opened FdtTrees
  import opened FdtSearch
  import opened FdtRwTrees
  import opened FdtShape
  import opened FdtOverlay

  // --------------------------------------------------------- as the code does

  lemma ShiftPropShape(ps: Props, name: seq<byte>, fix: seq<byte>, delta: int)
    requires ShiftProp(ps, name, fix, delta).Done?
    ensures BlankProps(ShiftProp(ps, name, fix, delta).value) == BlankProps(ps)
  {
    var k := PropIndex(ps, name);
    BlankSet(ps, k, ShiftAll(ps[k].1, Offsets(fix), delta));
  }

  /** The tree after property j of the fixup node at q has been followed. */
  lemma FixStep(t: Tree, p: Path, q: Path, j: int, delta: int)
    requires ValidPath(t, p) && ValidPath(t, q) && 0 <= j < |SubAt(t, q).props|
    requires var fx := SubAt(t, q).props[j]; ShiftProp(SubAt(t, p).props, fx.0, fx.1, delta).Done?
    ensures var fx := SubAt(t, q).props[j];
      var u := WithProps(t, p, ShiftProp(SubAt(t, p).props, fx.0, fx.1, delta).value);
      && Shape(u) == Shape(t) && ValidPath(u, p) && ValidPath(u, q)
      && Shape(SubAt(u, q)) == Shape(SubAt(t, q)) && |SubAt(u, q).props| == |SubAt(t, q).props|
  {
    var fx := SubAt(t, q).props[j];
    var ps := ShiftProp(SubAt(t, p).props, fx.0, fx.1, delta).value;
    var u := WithProps(t, p, ps);
    ShiftPropShape(SubAt(t, p).props, fx.0, fx.1, delta);
    ShapeWithProps(t, p, ps);
    ShapeAt(t, u, p);
    ShapeAt(t, u, q);
    ShapeProps(SubAt(t, q), SubAt(u, q));
  }

  /** The properties of the fixup node at q from number j on, for the node at p
      (lines 210-246). The value of a fixup property is not changed while it is
      followed, since p is not q; the ones that come later may be. */
  ghost function FixProps(t: Tree, p: Path, q: Path, j: int, delta: int): (r: Outcome<Tree>)
    requires ValidPath(t, p) && ValidPath(t, q) && 0 <= j <= |SubAt(t, q).props|
    ensures (r.Done? ==> Shape(r.value) == Shape(t)) && (r.Failed? ==> r.err == -ERR_BADOVERLAY)
    decreases |SubAt(t, q).props| - j
  {
    if j == |SubAt(t, q).props| then Done(t)
    else
      var fx := SubAt(t, q).props[j];
      var r := ShiftProp(SubAt(t, p).props, fx.0, fx.1, delta);
      if r.Failed? then Failed(r.err)
      else if r.Stray? then Stray
      else
        FixStep(t, p, q, j, delta);
        FixProps(WithProps(t, p, r.value), p, q, j + 1, delta)
  }

  /** overlay_update_local_node_references (lines 201-269) for the node at p and the
      fixup node at q of one tree. Shapes do not change, so the shape of the fixup
      node bounds the recursion. */
  ghost function FixNode(t: Tree, p: Path, q: Path, shape: Tree, delta: int): (r: Outcome<Tree>)
    requires ValidPath(t, p) && ValidPath(t, q) && Shape(SubAt(t, q)) == shape
    ensures (r.Done? ==> Shape(r.value) == Shape(t)) && (r.Failed? ==> r.err == -ERR_BADOVERLAY)
    decreases shape, 1, 0
  {
    var r := FixProps(t, p, q, 0, delta);
    if !r.Done? then r
    else
      ShapeAt(t, r.value, p);
      ShapeAt(t, r.value, q);
      FixKids(r.value, p, q, 0, shape, delta)
  }

  /** The subnodes of the fixup node from number c on (lines 248-266). */
  ghost function FixKids(t: Tree, p: Path, q: Path, c: nat, shape: Tree, delta: int): (r: Outcome<Tree>)
    requires ValidPath(t, p) && ValidPath(t, q) && Shape(SubAt(t, q)) == shape && c <= |shape.children|
    ensures (r.Done? ==> Shape(r.value) == Shape(t)) && (r.Failed? ==> r.err == -ERR_BADOVERLAY)
    decreases shape, 0, |shape.children| - c
  {
    if c == |shape.children| then Done(t)
    else
      FixKid(t, q, c, shape);
      var m := FirstMatch(SubAt(t, p).children, SubAt(t, q).children[c].name);
      if m < 0 then Failed(-ERR_BADOVERLAY)
      else
        StepDown(t, p, m);
        var r := FixNode(t, p + [m], q + [c], shape.children[c], delta);
        if !r.Done? then r
        else
          ShapeAt(t, r.value, p);
          ShapeAt(t, r.value, q);
          FixKids(r.value, p, q, c + 1, shape, delta)
  }

  lemma FixKid(t: Tree, q: Path, c: nat, shape: Tree)
    requires ValidPath(t, q) && Shape(SubAt(t, q)) == shape && c < |shape.children|
    ensures c < |SubAt(t, q).children| && ValidPath(t, q + [c]) && Shape(SubAt(t, q + [c])) == shape.children[c]
    ensures SubAt(t, q + [c]) == SubAt(t, q).children[c]
  {
    StepDown(t, q, c);
    ShapeAllAt(SubAt(t, q).children, c);
  }

  /** One turn of the loop over the subnodes. */
  lemma KidStep(t: Tree, p: Path, q: Path, c: nat, shape: Tree, delta: int)
    requires ValidPath(t, p) && ValidPath(t, q) && Shape(SubAt(t, q)) == shape && c < |shape.children|
    ensures c < |SubAt(t, q).children| && ValidPath(t, q + [c]) && Shape(SubAt(t, q + [c])) == shape.children[c]
    ensures SubAt(t, q + [c]) == SubAt(t, q).children[c]
    ensures var m := FirstMatch(SubAt(t, p).children, SubAt(t, q).children[c].name);
      if m < 0 then FixKids(t, p, q, c, shape, delta) == Failed(-ERR_BADOVERLAY)
      else
        && ValidPath(t, p + [m]) && SubAt(t, p + [m]) == SubAt(t, p).children[m]
        && (var r := FixNode(t, p + [m], q + [c], shape.children[c], delta);
            && (!r.Done? ==> FixKids(t, p, q, c, shape, delta) == r)
            && (r.Done? ==> ValidPath(r.value, p) && ValidPath(r.value, q) && Shape(SubAt(r.value, q)) == shape
                            && FixKids(t, p, q, c, shape, delta) == FixKids(r.value, p, q, c + 1, shape, delta)))
  {
    FixKid(t, q, c, shape);
    var m := FirstMatch(SubAt(t, p).children, SubAt(t, q).children[c].name);
    if m >= 0 {
      StepDown(t, p, m);
      var r := FixNode(t, p + [m], q + [c], shape.children[c], delta);
      if r.Done? {
        ShapeAt(t, r.value, p);
        ShapeAt(t, r.value, q);
      }
    }
  }

  /** ... and of the loop over the properties. */
  lemma PropStep(t: Tree, p: Path, q: Path, j: int, delta: int)
    requires ValidPath(t, p) && ValidPath(t, q) && 0 <= j < |SubAt(t, q).props|
    ensures var fx := SubAt(t, q).props[j];
      match ShiftProp(SubAt(t, p).props, fx.0, fx.1, delta)
      case Failed(e) => FixProps(t, p, q, j, delta) == Failed(e)
      case Stray => FixProps(t, p, q, j, delta).Stray?
      case Done(ps) =>
        var u := WithProps(t, p, ps);
        && ValidPath(u, p) && ValidPath(u, q) && |SubAt(u, q).props| == |SubAt(t, q).props|
        && FixProps(t, p, q, j, delta) == FixProps(u, p, q, j + 1, delta)
  {
    var fx := SubAt(t, q).props[j];
    if ShiftProp(SubAt(t, p).props, fx.0, fx.1, delta).Done? { FixStep(t, p, q, j, delta); }
  }

  /** overlay_update_local_references (lines 288-306). */
  ghost function UpdateRefs(t: Tree, delta: int): (r: Outcome<Tree>)
    ensures (r.Done? ==> Shape(r.value) == Shape(t)) && (r.Failed? ==> r.err == -ERR_BADOVERLAY)
  {
    var k := FirstMatch(t.children, LOCAL_FIXUPS);
    if k < 0 then Done(t) else FixNode(t, [], [k], Shape(SubAt(t, [k])), delta)
  }

  // ------------------------------------------- when fixups are not changed

  /** Neither path leads through the other. */
  predicate Apart(a: Path, q: Path) {
    a != [] && q != [] && (a[0] != q[0] || Apart(a[1..], q[1..]))
  }

  lemma {:induction false} ApartDown(a: Path, q: Path, m: nat, c: nat)
    requires Apart(a, q)
    ensures Apart(a + [m], q) && Apart(a + [m], q + [c]) && Apart(a, q + [c])
    decreases |a|
  {
    assert (a + [m])[0] == a[0] && (a + [m])[1..] == a[1..] + [m];
    assert (q + [c])[0] == q[0] && (q + [c])[1..] == q[1..] + [c];
    if a[0] == q[0] { ApartDown(a[1..], q[1..], m, c); }
  }

  /** Another node at a leaves what is at q. */
  lemma {:induction false} ApartKept(t: Tree, a: Path, w: Tree, q: Path)
    requires ValidPath(t, a) && ValidPath(t, q) && Apart(a, q)
    ensures ValidPath(ReplaceAt(t, a, w), q) && SubAt(ReplaceAt(t, a, w), q) == SubAt(t, q)
    decreases |a|
  {
    if a[0] == q[0] { ApartKept(t.children[a[0]], a[1..], w, q[1..]); }
  }

  /** Other properties at p leave what is at q, unless p is at or below q. */
  lemma {:induction false} SubtreeKept(t: Tree, p: Path, ps: Props, q: Path)
    requires ValidPath(t, p) && ValidPath(t, q) && ((p == [] && q != []) || Apart(p, q))
    ensures ValidPath(WithProps(t, p, ps), q) && SubAt(WithProps(t, p, ps), q) == SubAt(t, q)
  {
    if p != [] { ApartKept(t, p, SubAt(t, p).(props := ps), q); }
  }

  lemma {:induction false} ReplaceTwice(t: Tree, p: Path, u: Tree, v: Tree)
    requires ValidPath(t, p)
    ensures ValidPath(ReplaceAt(t, p, u), p) && SubAt(ReplaceAt(t, p, u), p) == u
    ensures ReplaceAt(ReplaceAt(t, p, u), p, v) == ReplaceAt(t, p, v)
    decreases |p|
  {
    if p != [] { ReplaceTwice(t.children[p[0]], p[1..], u, v); }
  }

  lemma {:induction false} ReplaceDown(t: Tree, p: Path, m: nat, w: Tree)
    requires ValidPath(t, p) && m < |SubAt(t, p).children|
    ensures ValidPath(t, p + [m])
    ensures ReplaceAt(t, p + [m], w) == ReplaceAt(t, p, SubAt(t, p).(children := SubAt(t, p).children[m := w]))
    decreases |p|
  {
    var a := p + [m];
    if p == [] {
      assert a[0] == m && a[1..] == [];
    } else {
      assert a[0] == p[0] && a[1..] == p[1..] + [m];
      ReplaceDown(t.children[p[0]], p[1..], m, w);
    }
  }

  /** An outcome at the node p as one of the whole tree. */
  ghost function Lifted(t: Tree, p: Path, r: Outcome<Tree>): Outcome<Tree>
    requires ValidPath(t, p)
  {
    match r
    case Failed(e) => Failed(e)
    case Stray => Stray
    case Done(u) => Done(ReplaceAt(t, p, u))
  }

  ghost function PropsLifted(t: Tree, p: Path, r: Outcome<Props>): Outcome<Tree>
    requires ValidPath(t, p)
  {
    match r
    case Failed(e) => Failed(e)
    case Stray => Stray
    case Done(ps) => Done(WithProps(t, p, ps))
  }

  ghost function KidsLifted(t: Tree, p: Path, r: Outcome<seq<Tree>>): Outcome<Tree>
    requires ValidPath(t, p)
  {
    match r
    case Failed(e) => Failed(e)
    case Stray => Stray
    case Done(ts) => Done(ReplaceAt(t, p, SubAt(t, p).(children := ts)))
  }

  lemma {:induction false} FixPropsFrozen(t: Tree, p: Path, q: Path, j: int, delta: int)
    requires ValidPath(t, p) && ValidPath(t, q) && 0 <= j <= |SubAt(t, q).props|
    requires ((p == [] && q != []) || Apart(p, q))
    ensures FixProps(t, p, q, j, delta)
      == PropsLifted(t, p, ShiftProps(SubAt(t, p).props, SubAt(t, q).props[j..], delta))
    decreases |SubAt(t, q).props| - j
  {
    var u, fixes := SubAt(t, p), SubAt(t, q).props;
    if j == |fixes| {
      ReplacedSame(t, p);
    } else {
      var r := ShiftProp(u.props, fixes[j].0, fixes[j].1, delta);
      assert fixes[j..][0] == fixes[j] && fixes[j..][1..] == fixes[j + 1..];
      if r.Done? {
        var t' := WithProps(t, p, r.value);
        FixStep(t, p, q, j, delta);
        SubtreeKept(t, p, r.value, q);
        FixPropsFrozen(t', p, q, j + 1, delta);
        var rest := ShiftProps(r.value, fixes[j + 1..], delta);
        if rest.Done? {
          ReplaceTwice(t, p, u.(props := r.value), u.(props := rest.value));
        } else {
          ReplaceTwice(t, p, u.(props := r.value), u);
        }
      }
    }
  }

  /** No subnode from number c on leads to where the fixups are. */
  ghost predicate KidsApart(t: Tree, p: Path, q: Path, c: nat)
    requires ValidPath(t, p) && ValidPath(t, q)
  {
    forall i :: c <= i < |SubAt(t, q).children| ==>
      var m := FirstMatch(SubAt(t, p).children, SubAt(t, q).children[i].name); m >= 0 ==> Apart(p + [m], q)
  }

  lemma KidsApartFrom(t: Tree, p: Path, q: Path)
    requires ValidPath(t, p) && ValidPath(t, q) && Apart(p, q)
    ensures KidsApart(t, p, q, 0)
  {
    forall i | 0 <= i < |SubAt(t, q).children|
      ensures var m := FirstMatch(SubAt(t, p).children, SubAt(t, q).children[i].name); m >= 0 ==> Apart(p + [m], q)
    {
      var m := FirstMatch(SubAt(t, p).children, SubAt(t, q).children[i].name);
      if m >= 0 { ApartDown(p, q, m, 0); }
    }
  }

  /** A child replaced by one of its name: the others are found as before. */
  lemma KidsApartNext(t: Tree, p: Path, q: Path, c: nat, m: nat, w: Tree)
    requires ValidPath(t, p) && ValidPath(t, q) && KidsApart(t, p, q, c) && c < |SubAt(t, q).children|
    requires m < |SubAt(t, p).children| && w.name == SubAt(t, p).children[m].name && ValidPath(t, p + [m])
    requires Apart(p + [m], q)
    ensures var t' := ReplaceAt(t, p + [m], w);
      && ValidPath(t', p) && ValidPath(t', q) && SubAt(t', q) == SubAt(t, q)
      && SubAt(t', p) == SubAt(t, p).(children := SubAt(t, p).children[m := w]) && KidsApart(t', p, q, c + 1)
  {
    var t' := ReplaceAt(t, p + [m], w);
    var ts := SubAt(t, p).children;
    ReplaceDown(t, p, m, w);
    ReplaceTwice(t, p, SubAt(t, p).(children := ts[m := w]), t);
    ApartKept(t, p + [m], w, q);
    forall i | c + 1 <= i < |SubAt(t', q).children|
      ensures var n := FirstMatch(SubAt(t', p).children, SubAt(t', q).children[i].name); n >= 0 ==> Apart(p + [n], q)
    {
      MatchSame(ts, ts[m := w], SubAt(t, q).children[i].name);
    }
  }

  lemma {:induction false} FixKidsFrozen(t: Tree, p: Path, q: Path, c: nat, shape: Tree, delta: int)
    requires ValidPath(t, p) && ValidPath(t, q) && Shape(SubAt(t, q)) == shape
    requires c <= |shape.children| == |SubAt(t, q).children|
    requires KidsApart(t, p, q, c)
    ensures FixKids(t, p, q, c, shape, delta)
      == KidsLifted(t, p, ShiftKids(SubAt(t, p).children, SubAt(t, q).children[c..], delta))
    decreases shape, 0, |shape.children| - c, 0
  {
    var u, fixes := SubAt(t, p), SubAt(t, q).children;
    if c == |shape.children| {
      ReplacedSame(t, p);
    } else {
      FixKid(t, q, c, shape);
      var m := FirstMatch(u.children, fixes[c].name);
      assert fixes[c..][0] == fixes[c] && fixes[c..][1..] == fixes[c + 1..];
      if m >= 0 {
        StepDown(t, p, m);
        ApartSkip(p + [m], q, c);
        FixNodeFrozen(t, p + [m], q + [c], shape.children[c], delta);
        var r := Shift(u.children[m], fixes[c], delta);
        if r.Done? {
          FixKidsNext(t, p, q, c, shape, delta, m, r.value);
        }
      }
    }
  }

  lemma ApartSkip(a: Path, q: Path, c: nat)
    requires Apart(a, q)
    ensures Apart(a, q + [c])
  {
    ApartDown(a, q, 0, c);
  }

  lemma {:induction false} FixKidsNext(t: Tree, p: Path, q: Path, c: nat, shape: Tree, delta: int, m: nat, w: Tree)
    requires ValidPath(t, p) && ValidPath(t, q) && Shape(SubAt(t, q)) == shape
    requires c < |shape.children| == |SubAt(t, q).children|
    requires KidsApart(t, p, q, c) && m < |SubAt(t, p).children|
    requires m == FirstMatch(SubAt(t, p).children, SubAt(t, q).children[c].name)
    requires ValidPath(t, p + [m]) && Shift(SubAt(t, p).children[m], SubAt(t, q).children[c], delta) == Done(w)
    ensures var t' := ReplaceAt(t, p + [m], w);
      && ValidPath(t', p) && ValidPath(t', q) && Shape(SubAt(t', q)) == shape && SubAt(t', q) == SubAt(t, q)
      && FixKids(t', p, q, c + 1, shape, delta)
         == KidsLifted(t, p, ShiftKids(SubAt(t, p).children[m := w], SubAt(t, q).children[c + 1..], delta))
    decreases shape, 0, |shape.children| - c - 1, 1
  {
    var u, t' := SubAt(t, p), ReplaceAt(t, p + [m], w);
    KidsApartNext(t, p, q, c, m, w);
    FixKidsFrozen(t', p, q, c + 1, shape, delta);
    ReplaceDown(t, p, m, w);
    var rest := ShiftKids(u.children[m := w], SubAt(t, q).children[c + 1..], delta);
    if rest.Done? { ReplaceTwice(t, p, u.(children := u.children[m := w]), u.(children := rest.value)); }
  }

  /** With the fixups elsewhere, the code does what the fixups received ask for. */
  lemma {:induction false} FixNodeFrozen(t: Tree, p: Path, q: Path, shape: Tree, delta: int)
    requires ValidPath(t, p) && ValidPath(t, q) && Shape(SubAt(t, q)) == shape && Apart(p, q)
    ensures FixNode(t, p, q, shape, delta) == Lifted(t, p, Shift(SubAt(t, p), SubAt(t, q), delta))
    decreases shape, 1, 0
  {
    KidsApartFrom(t, p, q);
    FixNodeBoth(t, p, q, shape, delta);
  }

  lemma {:induction false} FixNodeBoth(t: Tree, p: Path, q: Path, shape: Tree, delta: int)
    requires ValidPath(t, p) && ValidPath(t, q) && Shape(SubAt(t, q)) == shape && KidsApart(t, p, q, 0)
    requires ((p == [] && q != []) || Apart(p, q))
    ensures FixNode(t, p, q, shape, delta) == Lifted(t, p, Shift(SubAt(t, p), SubAt(t, q), delta))
    decreases shape, 0, |shape.children| + 1
  {
    var u, fix := SubAt(t, p), SubAt(t, q);
    FixPropsFrozen(t, p, q, 0, delta);
    assert fix.props[0..] == fix.props && fix.children[0..] == fix.children;
    var r := ShiftProps(u.props, fix.props, delta);
    if r.Done? {
      var v := u.(props := r.value);
      SubtreeKept(t, p, r.value, q);
      ReplaceTwice(t, p, v, v);
      FixKidsFrozen(WithProps(t, p, r.value), p, q, 0, shape, delta);
      var ks := ShiftKids(u.children, fix.children, delta);
      if ks.Done? { ReplaceTwice(t, p, v, v.(children := ks.value)); }
    }
  }

  /** No fixup leads into the fixups. */
  ghost predicate Separate(t: Tree) {
    var k := FirstMatch(t.children, LOCAL_FIXUPS);
    k >= 0 ==> FixFor(t.children, t.children[k].children, k) < 0
  }

  lemma {:induction false} FixForNone(ts: seq<Tree>, fixes: seq<Tree>, k: int, i: int)
    requires FixFor(ts, fixes, k) < 0 && 0 <= i < |fixes|
    ensures FirstMatch(ts, fixes[i].name) != k
  {
    if i > 0 { FixForNone(ts, fixes[1..], k, i - 1); }
  }

  /** When no fixup leads into the fixups, reading them while they are followed
      is the same as reading them first. */
  lemma FixupsRead(t: Tree, delta: int)
    requires Separate(t)
    ensures UpdateRefs(t, delta) == ShiftLocal(t, delta)
  {
    var k := FirstMatch(t.children, LOCAL_FIXUPS);
    if k >= 0 {
      assert [k][1..] == [] && SubAt(t, [k]) == t.children[k];
      forall i | 0 <= i < |SubAt(t, [k]).children|
        ensures var m := FirstMatch(SubAt(t, []).children, SubAt(t, [k]).children[i].name);
          m >= 0 ==> Apart([] + [m], [k])
      {
        FixForNone(t.children, t.children[k].children, k, i);
      }
      FixNodeBoth(t, [], [k], Shape(SubAt(t, [k])), delta);
    }
  }
}
