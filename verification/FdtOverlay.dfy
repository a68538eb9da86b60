/** The two steps that renumber an overlay (lib/libfdt/fdt_overlay.c:101-306) on
    the tree that its blob reads as: first every phandle grows, then every local
    reference does. FdtOverlayRun runs them on the blob. */
module FdtOverlay {
  import opened Bytes
  import opened FdtTags
  import opened FdtStream
  import opened FdtWalk
  import opened FdtEdit
  import opened FdtTrees
  import opened FdtLookup
  import opened FdtSearch
  import opened FdtRwTrees
  import opened FdtShape

  const ERR_BADPHANDLE := 6
  const ERR_BADOVERLAY := 16
  const ERR_NOPHANDLES := 17
  const MAX_PHANDLE := 0xffff_fffe

  /** "phandle", "linux,phandle" and "__local_fixups__". */
  const PHANDLE: seq<byte> := [112, 104, 97, 110, 100, 108, 101]
  const LINUX_PHANDLE: seq<byte> := [108, 105, 110, 117, 120, 44, 112, 104, 97, 110, 100, 108, 101]
  const LOCAL_FIXUPS: seq<byte> := [95, 95, 108, 111, 99, 97, 108, 95, 102, 105, 120, 117, 112, 115, 95, 95]

  /** A step on the properties of a node or on a tree: an error code, or the new
      value. Stray stands for a store outside the value of a property, which the
      code does not test for. */
  datatype Outcome<T> = Failed(err: int) | Stray | Done(value: T)

  predicate IsPhandle(name: seq<byte>) { name == PHANDLE || name == LINUX_PHANDLE }

  // ------------------------------------------------------------- phandles

  /** fdt_get_phandle (lib/libfdt/fdt_ro.c:513-528). */
  function GetPhandle(ps: Props): (h: int)
    ensures 0 <= h < U32
  {
    var v := ValueIn(ps, PHANDLE);
    if v.Found? && |v.val| == 4 then Get32(v.val, 0)
    else
      var w := ValueIn(ps, LINUX_PHANDLE);
      if w.Found? && |w.val| == 4 then Get32(w.val, 0) else 0
  }

  /** fdt_find_max_phandle (lib/libfdt/fdt_ro.c:114-140). */
  function MaxPhandle(t: Tree): (m: int)
    ensures 0 <= m < U32
    decreases t, 1
  {
    var m := MaxOf(t.children);
    if GetPhandle(t.props) > m then GetPhandle(t.props) else m
  }

  function MaxOf(ts: seq<Tree>): (m: int)
    ensures 0 <= m < U32
    decreases ts, 0
  {
    if ts == [] then 0
    else if MaxPhandle(ts[0]) > MaxOf(ts[1..]) then MaxPhandle(ts[0]) else MaxOf(ts[1..])
  }

  lemma {:induction false} MaxOfMember(ts: seq<Tree>, k: int)
    requires 0 <= k < |ts|
    ensures MaxPhandle(ts[k]) <= MaxOf(ts)
  {
    if k > 0 { MaxOfMember(ts[1..], k - 1); }
  }

  /** No phandle of the tree is above the maximum. */
  lemma {:induction false} MaxIsBound(t: Tree, q: Path)
    requires ValidPath(t, q)
    ensures GetPhandle(SubAt(t, q).props) <= MaxPhandle(t)
    decreases |q|
  {
    if q != [] {
      MaxIsBound(t.children[q[0]], q[1..]);
      MaxOfMember(t.children, q[0]);
    }
  }

  lemma {:induction false} MaxOfAttained(ts: seq<Tree>) returns (k: nat)
    requires MaxOf(ts) > 0
    ensures k < |ts| && MaxPhandle(ts[k]) == MaxOf(ts)
  {
    if MaxPhandle(ts[0]) > MaxOf(ts[1..]) {
      k := 0;
    } else {
      k := MaxOfAttained(ts[1..]);
      k := k + 1;
    }
  }

  /** A nonzero maximum is the phandle of a node. */
  lemma {:induction false} MaxAttained(t: Tree) returns (q: Path)
    requires MaxPhandle(t) > 0
    ensures ValidPath(t, q) && GetPhandle(SubAt(t, q).props) == MaxPhandle(t)
    decreases t
  {
    if GetPhandle(t.props) > MaxOf(t.children) {
      q := [];
    } else {
      var k := MaxOfAttained(t.children);
      var r := MaxAttained(t.children[k]);
      q := [k] + r;
      assert q[1..] == r;
    }
  }

  // ------------------------------------------------------ adding the offset

  /** overlay_phandle_add_offset (lines 101-120). */
  function AddOffset(ps: Props, name: seq<byte>, delta: int): (r: Outcome<Props>)
    requires 0 <= delta < U32
    ensures !r.Stray? && (r.Failed? ==> r.err < 0)
  {
    var k := PropIndex(ps, name);
    if k < 0 then Failed(-ERR_NOTFOUND)
    else if |ps[k].1| != 4 then Failed(-ERR_BADPHANDLE)
    else
      var h := Get32(ps[k].1, 0);
      if (h + delta) % U32 < h || (h + delta) % U32 == U32 - 1 then Failed(-ERR_NOPHANDLES)
      else Done(ps[k := (name, Word((h + delta) % U32))])
  }

  /** A missing phandle is no error (lines 143-149). */
  function AddIfThere(ps: Props, name: seq<byte>, delta: int): (r: Outcome<Props>)
    requires 0 <= delta < U32
    ensures !r.Stray? && (r.Failed? ==> r.err < 0)
  {
    var r := AddOffset(ps, name, delta);
    if r == Failed(-ERR_NOTFOUND) then Done(ps) else r
  }

  function AdjustProps(ps: Props, delta: int): (r: Outcome<Props>)
    requires 0 <= delta < U32
    ensures !r.Stray? && (r.Failed? ==> r.err < 0)
  {
    var r := AddIfThere(ps, PHANDLE, delta);
    if !r.Done? then r else AddIfThere(r.value, LINUX_PHANDLE, delta)
  }

  /** overlay_adjust_node_phandles (lines 137-158). */
  function Adjust(t: Tree, delta: int): (r: Outcome<Tree>)
    requires 0 <= delta < U32
    ensures !r.Stray? && (r.Failed? ==> r.err < 0)
    decreases t, 1
  {
    var ps := AdjustProps(t.props, delta);
    if ps.Failed? then Failed(ps.err)
    else
      var ks := AdjustAll(t.children, delta);
      if ks.Failed? then Failed(ks.err) else Done(Node(t.name, ps.value, ks.value))
  }

  function AdjustAll(ts: seq<Tree>, delta: int): (r: Outcome<seq<Tree>>)
    requires 0 <= delta < U32
    ensures !r.Stray? && (r.Failed? ==> r.err < 0) && (r.Done? ==> |r.value| == |ts|)
    decreases ts, 0
  {
    if ts == [] then Done([])
    else
      var u := Adjust(ts[0], delta);
      if u.Failed? then Failed(u.err)
      else
        var us := AdjustAll(ts[1..], delta);
        if us.Failed? then Failed(us.err) else Done([u.value] + us.value)
  }

  // -------------------------------------------------- what adding amounts to

  /** The value of a phandle property after the step. */
  ghost predicate Raised(v: Value, v': Value, delta: int)
    requires 0 <= delta
  {
    match v
    case Missing(_) => v' == v
    case Found(x) => |x| == 4 && Get32(x, 0) + delta <= MAX_PHANDLE && v' == Found(Word(Get32(x, 0) + delta))
  }

  lemma SumFits(h: int, delta: int)
    requires 0 <= h < U32 && 0 <= delta < U32 && !((h + delta) % U32 < h || (h + delta) % U32 == U32 - 1)
    ensures (h + delta) % U32 == h + delta <= MAX_PHANDLE
  {
    WrapOnce(h + delta);
  }

  lemma WrapOnce(x: int)
    requires 0 <= x < 2 * U32
    ensures x % U32 == if x < U32 then x else x - U32
  {
  }

  /** Setting property k in place. */
  lemma ValueAfterSet(ps: Props, name: seq<byte>, val: seq<byte>, other: seq<byte>)
    requires PropIndex(ps, name) >= 0
    ensures ValueIn(ps[PropIndex(ps, name) := (name, val)], other) == if other == name then Found(val)
      else ValueIn(ps, other)
  {
    PutInLookup(ps, name, val, other);
  }

  lemma AddEffect(ps: Props, name: seq<byte>, delta: int, other: seq<byte>)
    requires 0 <= delta < U32 && AddIfThere(ps, name, delta).Done?
    ensures var ps' := AddIfThere(ps, name, delta).value;
      if other == name then Raised(ValueIn(ps, other), ValueIn(ps', other), delta)
        else ValueIn(ps', other) == ValueIn(ps, other)
  {
    var k := PropIndex(ps, name);
    if k >= 0 {
      var h := Get32(ps[k].1, 0);
      SumFits(h, delta);
      ValueAfterSet(ps, name, Word(h + delta), other);
    }
  }

  /** Exactly the phandle properties grow, by delta. */
  lemma AdjustPropsEffect(ps: Props, delta: int, name: seq<byte>)
    requires 0 <= delta < U32 && AdjustProps(ps, delta).Done?
    ensures var ps' := AdjustProps(ps, delta).value;
      if IsPhandle(name) then Raised(ValueIn(ps, name), ValueIn(ps', name), delta)
        else ValueIn(ps', name) == ValueIn(ps, name)
  {
    var mid := AddIfThere(ps, PHANDLE, delta).value;
    assert |PHANDLE| != |LINUX_PHANDLE|;
    AddEffect(ps, PHANDLE, delta, name);
    AddEffect(mid, LINUX_PHANDLE, delta, name);
  }

  lemma {:induction false} AdjustChild(ts: seq<Tree>, delta: int, k: int)
    requires 0 <= delta < U32 && AdjustAll(ts, delta).Done? && 0 <= k < |ts|
    ensures Adjust(ts[k], delta) == Done(AdjustAll(ts, delta).value[k])
  {
    if k > 0 { AdjustChild(ts[1..], delta, k - 1); }
  }

  /** Every node has its properties adjusted; the tree keeps its shape. */
  lemma {:induction false} AdjustAt(t: Tree, delta: int, q: Path)
    requires 0 <= delta < U32 && Adjust(t, delta).Done? && ValidPath(t, q)
    ensures var t' := Adjust(t, delta).value;
      ValidPath(t', q) && SubAt(t', q).name == SubAt(t, q).name
      && AdjustProps(SubAt(t, q).props, delta) == Done(SubAt(t', q).props)
    decreases |q|
  {
    if q != [] {
      AdjustChild(t.children, delta, q[0]);
      AdjustAt(t.children[q[0]], delta, q[1..]);
    }
  }

  /** A node that had a phandle has one that is larger by delta. */
  lemma RaisedPhandle(ps: Props, delta: int)
    requires 0 <= delta < U32 && AdjustProps(ps, delta).Done?
    ensures var h, h' := GetPhandle(ps), GetPhandle(AdjustProps(ps, delta).value);
      h > 0 ==> h' == h + delta <= MAX_PHANDLE
  {
    var ps' := AdjustProps(ps, delta).value;
    AdjustPropsEffect(ps, delta, PHANDLE);
    AdjustPropsEffect(ps, delta, LINUX_PHANDLE);
    WordBack(ValueIn(ps, PHANDLE), ValueIn(ps', PHANDLE), delta);
    WordBack(ValueIn(ps, LINUX_PHANDLE), ValueIn(ps', LINUX_PHANDLE), delta);
  }

  lemma WordBack(v: Value, v': Value, delta: int)
    requires 0 <= delta < U32 && Raised(v, v', delta)
    ensures v.Found? ==> v'.Found? && |v'.val| == 4 && Get32(v'.val, 0) == Get32(v.val, 0) + delta
  {
    if v.Found? { WordReads(Get32(v.val, 0) + delta); }
  }

  // ------------------------------------------------------- local references

  /** The words of a fixup value: offsets into the property of the same name. */
  function Offsets(val: seq<byte>): seq<int>
    requires |val| % 4 == 0
  {
    if val == [] then [] else [Get32(val, 0)] + Offsets(val[4..])
  }

  ghost predicate AllInside(offs: seq<int>, n: int) {
    forall i :: 0 <= i < |offs| ==> 0 <= offs[i] && offs[i] + 4 <= n
  }

  /** One store (lines 238-244): the sum is a 32-bit one. */
  function ShiftWord(val: seq<byte>, k: int, delta: int): (r: seq<byte>)
    requires 0 <= k && k + 4 <= |val|
    ensures |r| == |val|
  {
    Overwrite(val, k, Word((Get32(val, k) + delta) % U32))
  }

  /** The loop over the offsets (lines 235-245). */
  function ShiftAll(val: seq<byte>, offs: seq<int>, delta: int): (r: seq<byte>)
    requires AllInside(offs, |val|)
    ensures |r| == |val|
    decreases |offs|
  {
    if offs == [] then val else ShiftAll(ShiftWord(val, offs[0], delta), offs[1..], delta)
  }

  /** One property of a fixup node (lines 218-245). */
  ghost function ShiftProp(ps: Props, name: seq<byte>, fix: seq<byte>, delta: int): (r: Outcome<Props>)
    ensures r.Failed? ==> r.err == -ERR_BADOVERLAY
  {
    var k := PropIndex(ps, name);
    if |fix| % 4 != 0 then Failed(-ERR_BADOVERLAY)
    else if k < 0 then Failed(-ERR_BADOVERLAY)
    else if !AllInside(Offsets(fix), |ps[k].1|) then Stray
    else Done(ps[k := (name, ShiftAll(ps[k].1, Offsets(fix), delta))])
  }

  ghost function ShiftProps(ps: Props, fixes: Props, delta: int): Outcome<Props>
    decreases |fixes|
  {
    if fixes == [] then Done(ps)
    else
      var r := ShiftProp(ps, fixes[0].0, fixes[0].1, delta);
      if !r.Done? then r else ShiftProps(r.value, fixes[1..], delta)
  }

  /** overlay_update_local_node_references (lines 201-269) with the fixups as they
      were in the overlay received. FdtFixups says when the code, which reads them
      while it changes the blob, does the same. */
  ghost function Shift(t: Tree, fix: Tree, delta: int): Outcome<Tree>
    decreases fix, 1
  {
    var ps := ShiftProps(t.props, fix.props, delta);
    if ps.Failed? then Failed(ps.err)
    else if ps.Stray? then Stray
    else
      var ks := ShiftKids(t.children, fix.children, delta);
      if ks.Failed? then Failed(ks.err) else if ks.Stray? then Stray else Done(Node(t.name, ps.value, ks.value))
  }

  /** The child of the tree is found by the name of the fixup child. */
  ghost function ShiftKids(ts: seq<Tree>, fixes: seq<Tree>, delta: int): (r: Outcome<seq<Tree>>)
    decreases fixes, 0
  {
    if fixes == [] then Done(ts)
    else
      var k := FirstMatch(ts, fixes[0].name);
      if k < 0 then Failed(-ERR_BADOVERLAY)
      else
        var u := Shift(ts[k], fixes[0], delta);
        if u.Failed? then Failed(u.err)
        else if u.Stray? then Stray
        else ShiftKids(ts[k := u.value], fixes[1..], delta)
  }

  /** overlay_update_local_references (lines 288-306). */
  ghost function ShiftLocal(t: Tree, delta: int): Outcome<Tree> {
    var k := FirstMatch(t.children, LOCAL_FIXUPS);
    if k < 0 then Done(t) else Shift(t, t.children[k], delta)
  }

  // ---------------------------------------------------- the words of a value

  ghost predicate Spaced(offs: seq<int>) {
    forall i, j :: 0 <= i < j < |offs| ==> offs[i] + 4 <= offs[j] || offs[j] + 4 <= offs[i]
  }

  lemma ShiftWordAt(val: seq<byte>, k: int, delta: int, x: int)
    requires 0 <= k && k + 4 <= |val| && 0 <= x && x + 4 <= |val| && (x == k || x + 4 <= k || k + 4 <= x)
    ensures Get32(ShiftWord(val, k, delta), x) == if x == k then (Get32(val, k) + delta) % U32 else Get32(val, x)
  {
    var w := Word((Get32(val, k) + delta) % U32);
    var r := Overwrite(val, k, w);
    if x == k {
      OverwriteInside(val, k, w);
      WordReads((Get32(val, k) + delta) % U32);
      SameWord(r, w, k, 0);
    } else {
      OverwriteOutside(val, k, w, x, x + 4);
      SameWord(r, val, x, x);
    }
  }

  /** A word away from all offsets stays. */
  lemma {:induction false} ShiftAllElsewhere(val: seq<byte>, offs: seq<int>, delta: int, x: int)
    requires AllInside(offs, |val|) && 0 <= x && x + 4 <= |val|
    requires forall i :: 0 <= i < |offs| ==> offs[i] + 4 <= x || x + 4 <= offs[i]
    ensures Get32(ShiftAll(val, offs, delta), x) == Get32(val, x)
    decreases |offs|
  {
    if offs != [] {
      ShiftWordAt(val, offs[0], delta, x);
      ShiftAllElsewhere(ShiftWord(val, offs[0], delta), offs[1..], delta, x);
    }
  }

  /** Every word listed grows by delta once. */
  lemma {:induction false} ShiftAllAt(val: seq<byte>, offs: seq<int>, delta: int, i: int)
    requires AllInside(offs, |val|) && Spaced(offs) && 0 <= i < |offs|
    ensures Get32(ShiftAll(val, offs, delta), offs[i]) == (Get32(val, offs[i]) + delta) % U32
    decreases |offs|
  {
    var mid := ShiftWord(val, offs[0], delta);
    ShiftWordAt(val, offs[0], delta, offs[i]);
    if i == 0 {
      ShiftAllElsewhere(mid, offs[1..], delta, offs[0]);
    } else {
      ShiftAllAt(mid, offs[1..], delta, i - 1);
    }
  }

  // ------------------------------------------------------- one node's values

  /** The offsets that a fixup node lists for a property, none if it does not. */
  ghost function ListedFor(fixes: Props, name: seq<byte>): seq<int> {
    var k := PropIndex(fixes, name);
    if k < 0 || |fixes[k].1| % 4 != 0 then [] else Offsets(fixes[k].1)
  }

  ghost predicate DistinctNames(ps: Props) {
    forall i, j :: 0 <= i < j < |ps| ==> ps[i].0 != ps[j].0
  }

  /** The value of a property with the listed words shifted. */
  ghost predicate Shifted(v: Value, v': Value, offs: seq<int>, delta: int) {
    match v
    case Missing(_) => v' == v && offs == []
    case Found(x) => AllInside(offs, |x|) && v' == Found(ShiftAll(x, offs, delta))
  }

  lemma ShiftPropEffect(ps: Props, name: seq<byte>, fix: seq<byte>, delta: int, other: seq<byte>)
    requires ShiftProp(ps, name, fix, delta).Done?
    ensures |fix| % 4 == 0
    ensures Shifted(ValueIn(ps, other), ValueIn(ShiftProp(ps, name, fix, delta).value, other), if other == name
      then Offsets(fix) else [], delta)
  {
    var k := PropIndex(ps, name);
    ValueAfterSet(ps, name, ShiftAll(ps[k].1, Offsets(fix), delta), other);
  }

  lemma ListedTail(fixes: Props, name: seq<byte>)
    requires fixes != [] && DistinctNames(fixes) && |fixes[0].1| % 4 == 0
    ensures DistinctNames(fixes[1..])
    ensures ListedFor(fixes, name) == if name == fixes[0].0 then Offsets(fixes[0].1) else ListedFor(fixes[1..], name)
    ensures name == fixes[0].0 ==> ListedFor(fixes[1..], name) == []
  {
    var k := PropIndex(fixes[1..], name);
    if k >= 0 { assert fixes[1..][k] == fixes[k + 1]; }
  }

  lemma {:induction false} ShiftPropsEffect(ps: Props, fixes: Props, delta: int, name: seq<byte>)
    requires ShiftProps(ps, fixes, delta).Done? && DistinctNames(fixes)
    ensures Shifted(ValueIn(ps, name), ValueIn(ShiftProps(ps, fixes, delta).value, name), ListedFor(fixes, name), delta)
    decreases |fixes|
  {
    if fixes != [] {
      var mid := ShiftProp(ps, fixes[0].0, fixes[0].1, delta).value;
      ShiftPropEffect(ps, fixes[0].0, fixes[0].1, delta, name);
      ListedTail(fixes, name);
      ShiftPropsEffect(mid, fixes[1..], delta, name);
    }
  }

  // --------------------------------------------------------- the whole tree

  /** The fixup child that leads to child i, -1 if none does. */
  ghost function FixFor(ts: seq<Tree>, fixes: seq<Tree>, i: int): (m: int)
    ensures -1 <= m < |fixes| && (m >= 0 ==> FirstMatch(ts, fixes[m].name) == i)
  {
    if fixes == [] then -1
    else if FirstMatch(ts, fixes[0].name) == i then 0
    else Plus(1, FixFor(ts, fixes[1..], i))
  }

  /** The offsets that the fixups list for a property of the node at q. */
  ghost function SlotsAt(t: Tree, fix: Tree, q: Path, name: seq<byte>): seq<int>
    requires ValidPath(t, q)
    decreases |q|
  {
    if q == [] then ListedFor(fix.props, name)
    else
      var m := FixFor(t.children, fix.children, q[0]);
      if m < 0 then [] else SlotsAt(t.children[q[0]], fix.children[m], q[1..], name)
  }

  /** Different fixup children lead to different children of the tree. */
  ghost predicate Injective(ts: seq<Tree>, fixes: seq<Tree>) {
    forall a, c :: 0 <= a < c < |fixes| ==> FirstMatch(ts, fixes[a].name) != FirstMatch(ts, fixes[c].name)
  }

  /** A fixup tree that names every slot once and no phandle property. */
  ghost predicate Clean(t: Tree, fix: Tree)
    decreases fix
  {
    && DistinctNames(fix.props)
    && (forall i :: 0 <= i < |fix.props| ==> !IsPhandle(fix.props[i].0))
    && (forall i :: 0 <= i < |fix.props| && |fix.props[i].1| % 4 == 0 ==> Spaced(Offsets(fix.props[i].1)))
    && Injective(t.children, fix.children)
    && forall a :: 0 <= a < |fix.children| ==>
         var k := FirstMatch(t.children, fix.children[a].name); k >= 0 ==> Clean(t.children[k], fix.children[a])
  }

  ghost predicate SameNames(ts: seq<Tree>, us: seq<Tree>) {
    |ts| == |us| && forall i :: 0 <= i < |ts| ==> ts[i].name == us[i].name
  }

  lemma {:induction false} MatchSame(ts: seq<Tree>, us: seq<Tree>, name: seq<byte>)
    requires SameNames(ts, us)
    ensures FirstMatch(ts, name) == FirstMatch(us, name)
  {
    if ts != [] { MatchSame(ts[1..], us[1..], name); }
  }

  lemma {:induction false} FixSame(ts: seq<Tree>, us: seq<Tree>, fixes: seq<Tree>, i: int)
    requires SameNames(ts, us)
    ensures FixFor(ts, fixes, i) == FixFor(us, fixes, i)
    decreases |fixes|
  {
    if fixes != [] {
      MatchSame(ts, us, fixes[0].name);
      FixSame(ts, us, fixes[1..], i);
    }
  }

  lemma InjectiveTail(ts: seq<Tree>, us: seq<Tree>, fixes: seq<Tree>)
    requires fixes != [] && Injective(ts, fixes) && SameNames(ts, us)
    ensures Injective(us, fixes[1..]) && FixFor(us, fixes[1..], FirstMatch(ts, fixes[0].name)) == -1
  {
    var rest, k := fixes[1..], FirstMatch(ts, fixes[0].name);
    forall a, c | 0 <= a < c < |rest|
      ensures FirstMatch(us, rest[a].name) != FirstMatch(us, rest[c].name)
    {
      MatchSame(ts, us, rest[a].name);
      MatchSame(ts, us, rest[c].name);
      assert rest[a] == fixes[a + 1] && rest[c] == fixes[c + 1];
    }
    forall a | 0 <= a < |rest|
      ensures FirstMatch(us, rest[a].name) != k
    {
      MatchSame(ts, us, rest[a].name);
      assert rest[a] == fixes[a + 1];
    }
    FixNone(us, rest, k);
  }

  lemma {:induction false} FixNone(ts: seq<Tree>, fixes: seq<Tree>, k: int)
    requires forall a :: 0 <= a < |fixes| ==> FirstMatch(ts, fixes[a].name) != k
    ensures FixFor(ts, fixes, k) == -1
    decreases |fixes|
  {
    if fixes != [] { FixNone(ts, fixes[1..], k); }
  }

  /** Each child is shifted by the fixup child that leads to it, once. */
  lemma {:induction false} ShiftKidsEffect(ts: seq<Tree>, fixes: seq<Tree>, delta: int, i: int)
    requires ShiftKids(ts, fixes, delta).Done? && Injective(ts, fixes) && 0 <= i < |ts|
    ensures var us, m := ShiftKids(ts, fixes, delta).value, FixFor(ts, fixes, i);
      |us| == |ts| && if m < 0 then us[i] == ts[i] else Shift(ts[i], fixes[m], delta) == Done(us[i])
    decreases |fixes|
  {
    if fixes != [] {
      var k := FirstMatch(ts, fixes[0].name);
      var mid := ts[k := Shift(ts[k], fixes[0], delta).value];
      InjectiveTail(ts, mid, fixes);
      ShiftKidsEffect(mid, fixes[1..], delta, i);
      FixSame(ts, mid, fixes[1..], i);
    }
  }

  /** At every node the listed words of every property grow by delta, and nothing
      else changes. */
  lemma {:induction false} ShiftAt(t: Tree, fix: Tree, delta: int, q: Path, name: seq<byte>)
    requires Shift(t, fix, delta).Done? && Clean(t, fix) && ValidPath(t, q)
    ensures var t' := Shift(t, fix, delta).value;
      ValidPath(t', q)
      && Shifted(ValueIn(SubAt(t, q).props, name), ValueIn(SubAt(t', q).props, name), SlotsAt(t, fix, q, name), delta)
    decreases |q|
  {
    if q == [] {
      ShiftPropsEffect(t.props, fix.props, delta, name);
    } else {
      var m := FixFor(t.children, fix.children, q[0]);
      ShiftKidsEffect(t.children, fix.children, delta, q[0]);
      if m >= 0 {
        ShiftAt(t.children[q[0]], fix.children[m], delta, q[1..], name);
      } else {
        Unshifted(ValueIn(SubAt(t, q).props, name), delta);
      }
    }
  }

  lemma Unshifted(v: Value, delta: int)
    ensures Shifted(v, v, [], delta)
  {
  }
}
