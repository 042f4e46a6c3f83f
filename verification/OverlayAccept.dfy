/**
 * When libfdt applies an overlay (libs/libfdt/fdt_overlay.c), and when it fails: conditions on the phandles, the local
 * fixups and the labels of the two trees as they are passed in, and on the targets of the fragments.
 */
module OverlayAccept {
  import opened Bytes
  import opened Tree
  import opened Encoding
  import opened Positions
  import opened Edits
  import opened Merge
  import opened Sem
  import opened FixupText
  import opened Overlay
  import opened OverlaySteps
  import opened Skeleton
  import opened Refs
  import opened Conflicts
  import opened Lookups
  import opened Merged
  import opened OverlayProof
  import opened Targets
  import opened BaseRefs
  import opened Paths
  import opened UfdtSizes
  import opened UfdtAccept

  // ----- Trees that are alike -----

  lemma {:induction false} FlatData(f: Forest, g: Forest, x: Str)
    requires Alike(f, g)
    ensures Data(g, x).Some? == Data(f, x).Some?
    ensures Data(f, x).Some? ==> |Data(g, x).value| == |Data(f, x).value|
  {
    match f
    case PropF(n, _, r) => if n != x { FlatData(r, g.rest, x); }
    case NopF(r) => FlatData(r, g.rest, x);
    case _ =>
  }

  lemma {:induction false} FlatSub(f: Forest, g: Forest, n: Str)
    requires Alike(f, g)
    ensures HasSub(g, n) == HasSub(f, n)
    ensures HasSub(f, n) ==> SubName(g, n) == SubName(f, n) && Alike(SubBody(f, n), SubBody(g, n))
  {
    match f
    case Nil =>
    case SubF(m, _, r) => if !NodeNameEq(m, n) { FlatSub(r, g.rest, n); }
    case _ => FlatSub(f.rest, g.rest, n);
  }

  lemma {:induction false} FlatResolve(f: Forest, g: Forest, cs: seq<Str>)
    requires Alike(f, g)
    ensures Resolve(g, cs) == Resolve(f, cs)
    decreases |cs|
  {
    if cs != [] {
      FlatSub(f, g, cs[0]);
      if HasSub(f, cs[0]) {
        FlatResolve(SubBody(f, cs[0]), SubBody(g, cs[0]), cs[1..]);
      }
    }
  }

  lemma FlatValue(f: Forest, g: Forest, p: Path, x: Str)
    requires Alike(f, g)
    ensures ValueAt(g, p, x).Some? == ValueAt(f, p, x).Some?
    ensures ValueAt(f, p, x).Some? ==> |ValueAt(g, p, x).value| == |ValueAt(f, p, x).value|
  {
    AlikeNode(f, g, p);
    if NodeAt(f, p).Some? {
      FlatData(NodeAt(f, p).value, NodeAt(g, p).value, x);
    }
  }

  lemma {:induction false} AlikeSkel(f: Forest, g: Forest)
    requires Alike(f, g)
    ensures Skel(g) == Skel(f)
  {
    match f
    case Nil =>
    case SubF(_, k, r) =>
      AlikeSkel(k, g.body);
      AlikeSkel(r, g.rest);
    case _ => AlikeSkel(f.rest, g.rest);
  }

  lemma {:induction false} PropAlike(b: Forest, x: Str, d: Str)
    requires HasProp(b, x) && |PropData(b, x)| == |d|
    ensures Alike(b, PutProp(b, x, d))
  {
    match b
    case PropF(n, _, r) =>
      if n == x {
        AlikeSelf(r);
      } else {
        PropAlike(r, x, d);
      }
    case NopF(r) => PropAlike(r, x, d);
  }

  lemma {:induction false} SubAlike(b: Forest, n: Str, k: Forest)
    requires HasSub(b, n) && Alike(SubBody(b, n), k)
    ensures Alike(b, PutSub(b, n, k))
  {
    match b
    case SubF(m, j, r) =>
      if NodeNameEq(m, n) {
        AlikeSelf(r);
      } else {
        AlikeSelf(j);
        SubAlike(r, n, k);
      }
    case NopF(r) => SubAlike(r, n, k);
    case PropF(_, _, r) => SubAlike(r, n, k);
  }

  // ----- Phandles -----

  /** The value of a phandle property can be increased by delta. */
  predicate CanShift(d: Option<Str>, delta: nat) {
    d.Some? ==> |d.value| == 4 && Get32(d.value, 0) + delta < U32 - 1
  }

  /** Every phandle property is one cell, and stays below the largest numbers when delta is added. */
  ghost predicate PhandlesFit(o: Forest, delta: nat) {
    forall p: Path, x | IsPhandle(x) :: CanShift(ValueAt(o, p, x), delta)
  }

  lemma PhandlesSplit(o: Forest, delta: nat)
    ensures PhandlesFit(o, delta) <==>
            && CanShift(Data(o, PHANDLE), delta) && CanShift(Data(o, LINUX_PHANDLE), delta) && KidsFit(o, delta)
  {
    hide CanShift, Data;
    assert IsPhandle(PHANDLE) && IsPhandle(LINUX_PHANDLE);
    assert forall x :: ValueAt(o, [], x) == Data(o, x);
    if PhandlesFit(o, delta) {
      assert CanShift(ValueAt(o, [], PHANDLE), delta) && CanShift(ValueAt(o, [], LINUX_PHANDLE), delta);
      forall n, p: Path, x | KidAt(o, n).Some? && IsPhandle(x)
        ensures CanShift(ValueAt(KidAt(o, n).value, p, x), delta)
      {
        assert ([n] + p)[1..] == p && CanShift(ValueAt(o, [n] + p, x), delta);
      }
    }
    if KidsFit(o, delta) && CanShift(Data(o, PHANDLE), delta) && CanShift(Data(o, LINUX_PHANDLE), delta) {
      forall p: Path, x | IsPhandle(x)
        ensures CanShift(ValueAt(o, p, x), delta)
      {
        NothingShiftsOut(delta);
        if p != [] && KidAt(o, p[0]).Some? {
          assert CanShift(ValueAt(KidAt(o, p[0]).value, p[1..], x), delta);
        }
      }
    }
  }

  lemma NothingShiftsOut(delta: nat)
    ensures CanShift(None, delta)
  {
  }

  ghost predicate KidsFit(o: Forest, delta: nat) {
    forall n | KidAt(o, n).Some? :: PhandlesFit(KidAt(o, n).value, delta)
  }

  lemma KidsSplit(o: Forest, delta: nat)
    requires Uniq(o) && o != Nil
    ensures Uniq(o.rest)
    ensures !o.SubF? ==> KidsFit(o, delta) == KidsFit(o.rest, delta)
    ensures o.SubF? ==> Uniq(o.body) && (KidsFit(o, delta) <==> PhandlesFit(o.body, delta) && KidsFit(o.rest, delta))
  {
    hide PhandlesFit;
    if o.SubF? {
      assert KidAt(o, o.name) == Some(o.body);
      assert forall n | KidAt(o.rest, n).Some? :: n != o.name && KidAt(o, n) == KidAt(o.rest, n);
    } else {
      assert forall n :: KidAt(o, n) == KidAt(o.rest, n);
    }
  }

  lemma AddOffsetOk(b: Forest, x: Str, delta: nat, y: Str)
    requires Uniq(b)
    ensures AddOffset(b, x, delta).Ok? <==> CanShift(Data(b, x), delta)
    ensures AddOffset(b, x, delta).Ok? ==>
              var c := AddOffset(b, x, delta).v;
              Alike(b, c) && Uniq(c) && (x != y ==> Data(c, y) == Data(b, y)) && KidsFit(c, delta) == KidsFit(b, delta)
  {
    hide Get32, Put32, Uniq, Alike, PhandlesFit;
    AlikeSelf(b);
    if AddOffset(b, x, delta).Ok? {
      var c := AddOffset(b, x, delta).v;
      if HasProp(b, x) {
        PropAlike(b, x, Put32(Get32(PropData(b, x), 0) + delta));
        AlikeSkel(b, c);
        SkelUniq(b, c);
      }
      AddOffsetHere(b, x, delta, [], y);
      forall n
        ensures KidAt(c, n) == KidAt(b, n)
      {
        AddOffsetHere(b, x, delta, n, y);
      }
    }
  }

  /** The overlay's phandles are shifted exactly if they fit; and only values change. */
  lemma {:induction false} ShiftOk(b: Forest, delta: nat)
    requires Uniq(b)
    ensures Shift(b, delta).Ok? <==> PhandlesFit(b, delta)
    ensures Shift(b, delta).Ok? ==> Alike(b, Shift(b, delta).v)
    decreases FSize(b), 1
  {
    hide AddOffset, ShiftSubs, PhandlesFit, KidsFit, CanShift, Data, Alike, Uniq;
    assert PHANDLE != LINUX_PHANDLE by {
      assert |PHANDLE| == 7 && |LINUX_PHANDLE| == 13;
    }
    PhandlesSplit(b, delta);
    AddOffsetOk(b, PHANDLE, delta, LINUX_PHANDLE);
    if AddOffset(b, PHANDLE, delta).Ok? {
      var b1 := AddOffset(b, PHANDLE, delta).v;
      ShiftSize(b, b1, PHANDLE, delta);
      AddOffsetOk(b1, LINUX_PHANDLE, delta, PHANDLE);
      if AddOffset(b1, LINUX_PHANDLE, delta).Ok? {
        var b2 := AddOffset(b1, LINUX_PHANDLE, delta).v;
        ShiftSize(b1, b2, LINUX_PHANDLE, delta);
        ShiftSubsOk(b2, delta);
        AlikeTrans(b, b1, b2);
        if ShiftSubs(b2, delta).Ok? {
          AlikeTrans(b, b2, ShiftSubs(b2, delta).v);
        }
      }
    }
  }

  lemma {:induction false} ShiftSubsOk(b: Forest, delta: nat)
    requires Uniq(b)
    ensures ShiftSubs(b, delta).Ok? <==> KidsFit(b, delta)
    ensures ShiftSubs(b, delta).Ok? ==> Alike(b, ShiftSubs(b, delta).v)
    decreases FSize(b), 0
  {
    hide Shift, PhandlesFit, KidsFit, Uniq;
    match b
    case Nil => NoKids(delta);
    case SubF(_, k, r) =>
      KidsSplit(b, delta);
      ShiftOk(k, delta);
      ShiftSubsOk(r, delta);
    case NopF(r) =>
      KidsSplit(b, delta);
      ShiftSubsOk(r, delta);
    case PropF(_, _, r) =>
      KidsSplit(b, delta);
      ShiftSubsOk(r, delta);
  }

  lemma NoKids(delta: nat)
    ensures KidsFit(Nil, delta)
  {
  }

  // ----- Local references -----

  /** The node at r of the local fixups fx is about a node of t, and its properties list cells of that node's. */
  ghost predicate FitsAt(t: Forest, fx: Forest, r: Path) {
    && Resolve(t, r).Some?
    && forall x | ValueAt(fx, r, x).Some? :: ListFits(ValueAt(t, Resolve(t, r).value, x), ValueAt(fx, r, x).value)
  }

  /** So it is for every node of the local fixups. */
  ghost predicate Fits(t: Forest, fx: Forest) {
    forall r: Path | NodeAt(fx, r).Some? :: FitsAt(t, fx, r)
  }

  ghost predicate PropsFit(t: Forest, fx: Forest) {
    forall x | HasProp(fx, x) :: ListFits(Data(t, x), PropData(fx, x))
  }

  ghost predicate SubsFit(t: Forest, fx: Forest) {
    forall n | KidAt(fx, n).Some? :: HasSub(t, n) && Fits(SubBody(t, n), KidAt(fx, n).value)
  }

  lemma FitsHere(t: Forest, fx: Forest)
    ensures FitsAt(t, fx, []) <==> PropsFit(t, fx)
  {
    hide ListFits;
    assert Resolve(t, []) == Some([]) && NodeAt(t, []) == Some(t) && NodeAt(fx, []) == Some(fx);
    assert forall x :: ValueAt(t, [], x) == Data(t, x) && ValueAt(fx, [], x) == Data(fx, x);
  }

  lemma FitsBelow(t: Forest, fx: Forest, n: Str, r: Path)
    requires KidAt(fx, n).Some?
    ensures NodeAt(fx, [n] + r) == NodeAt(KidAt(fx, n).value, r)
    ensures FitsAt(t, fx, [n] + r) <==> HasSub(t, n) && FitsAt(SubBody(t, n), KidAt(fx, n).value, r)
  {
    hide ListFits;
    assert ([n] + r)[1..] == r && ([n] + r)[0] == n;
    SubIsMeant(t, n);
    if HasSub(t, n) && Resolve(SubBody(t, n), r).Some? {
      var q := Resolve(SubBody(t, n), r).value;
      assert ([SubName(t, n)] + q)[1..] == q;
      assert Resolve(t, [n] + r) == Some([SubName(t, n)] + q);
      assert forall x :: ValueAt(t, [SubName(t, n)] + q, x) == ValueAt(SubBody(t, n), q, x);
    }
  }

  lemma FitsSplit(t: Forest, fx: Forest)
    ensures Fits(t, fx) <==> PropsFit(t, fx) && SubsFit(t, fx)
  {
    hide FitsAt, PropsFit;
    FitsHere(t, fx);
    assert NodeAt(fx, []) == Some(fx);
    if Fits(t, fx) {
      forall n | KidAt(fx, n).Some?
        ensures HasSub(t, n) && Fits(SubBody(t, n), KidAt(fx, n).value)
      {
        FitsBelow(t, fx, n, []);
        forall r: Path | NodeAt(KidAt(fx, n).value, r).Some?
          ensures FitsAt(SubBody(t, n), KidAt(fx, n).value, r)
        {
          FitsBelow(t, fx, n, r);
        }
      }
    }
    if PropsFit(t, fx) && SubsFit(t, fx) {
      forall r: Path | NodeAt(fx, r).Some?
        ensures FitsAt(t, fx, r)
      {
        if r != [] {
          FitsBelow(t, fx, r[0], r[1..]);
          assert [r[0]] + r[1..] == r;
        }
      }
    }
  }

  lemma FitsAlike(t: Forest, t': Forest, fx: Forest)
    requires Alike(t, t')
    ensures Fits(t', fx) == Fits(t, fx) && PropsFit(t', fx) == PropsFit(t, fx) && SubsFit(t', fx) == SubsFit(t, fx)
  {
    hide Fits, PropsFit, SubsFit, Alike;
    FitsOnly(t, t', fx);
    PropsOnly(t, t', fx);
    SubsOnly(t, t', fx);
  }

  lemma FitsOnly(t: Forest, t': Forest, fx: Forest)
    requires Alike(t, t')
    ensures Fits(t', fx) == Fits(t, fx)
  {
    hide Alike, Resolve, ValueAt, Inside;
    forall r
      ensures FitsAt(t', fx, r) == FitsAt(t, fx, r)
    {
      FlatResolve(t, t', r);
      if Resolve(t, r).Some? {
        forall x | ValueAt(fx, r, x).Some?
          ensures ListFits(ValueAt(t', Resolve(t, r).value, x), ValueAt(fx, r, x).value) ==
                  ListFits(ValueAt(t, Resolve(t, r).value, x), ValueAt(fx, r, x).value)
        {
          FlatValue(t, t', Resolve(t, r).value, x);
        }
      }
    }
  }

  lemma PropsOnly(t: Forest, t': Forest, fx: Forest)
    requires Alike(t, t')
    ensures PropsFit(t', fx) == PropsFit(t, fx)
  {
    hide Alike, Inside, Data;
    forall x
      ensures forall l :: ListFits(Data(t', x), l) == ListFits(Data(t, x), l)
    {
      FlatData(t, t', x);
    }
  }

  lemma SubsOnly(t: Forest, t': Forest, fx: Forest)
    requires Alike(t, t')
    ensures SubsFit(t', fx) == SubsFit(t, fx)
  {
    hide Alike, Fits;
    forall n
      ensures HasSub(t', n) == HasSub(t, n)
      ensures HasSub(t, n) ==> forall k :: Fits(SubBody(t', n), k) == Fits(SubBody(t, n), k)
    {
      FlatSub(t, t', n);
      if HasSub(t, n) {
        forall k
          ensures Fits(SubBody(t', n), k) == Fits(SubBody(t, n), k)
        {
          FitsOnly(SubBody(t, n), SubBody(t', n), k);
        }
      }
    }
  }

  lemma {:induction false} MapCellsOk(d: Str, l: Str, g: nat -> nat)
    ensures MapCells(d, l, g).Some? <==> Inside(l, |d|)
    decreases |l|
  {
    hide Inside, Get32, Put32, Overwrite;
    InsideStep(l, |d|);
    if |l| >= 4 {
      var i := Get32(l, 0);
      if i + 4 <= |d| {
        MapCellsOk(Overwrite(d, i, Put32(g(Get32(d, i)) % U32)), l[4..], g);
      }
    }
  }

  lemma PropsSplit(t: Forest, fx: Forest)
    requires Uniq(fx)
    ensures match fx
            case PropF(n, l, r) => Uniq(r) && (PropsFit(t, fx) <==> ListFits(Data(t, n), l) && PropsFit(t, r))
            case NopF(r) => Uniq(r) && PropsFit(t, fx) == PropsFit(t, r)
            case _ => PropsFit(t, fx)
  {
    hide ListFits;
    match fx
    case PropF(n, l, r) =>
      assert HasProp(fx, n) && PropData(fx, n) == l;
      assert forall x | HasProp(r, x) :: x != n && HasProp(fx, x) && PropData(fx, x) == PropData(r, x);
    case NopF(r) => assert forall x :: HasProp(fx, x) == HasProp(r, x);
    case _ =>
  }

  lemma {:induction false} RewritePropsOk(t: Forest, fx: Forest, g: nat -> nat)
    requires Uniq(fx)
    ensures RewriteProps(t, fx, g).Ok? <==> PropsFit(t, fx)
    ensures RewriteProps(t, fx, g).Ok? ==> Alike(t, RewriteProps(t, fx, g).v)
    decreases fx
  {
    hide MapCells, Inside, PropsFit, Alike, Uniq;
    PropsSplit(t, fx);
    AlikeSelf(t);
    match fx
    case PropF(n, l, r) =>
      if |l| % 4 == 0 && HasProp(t, n) {
        MapCellsOk(PropData(t, n), l, g);
        if MapCells(PropData(t, n), l, g).Some? {
          var t1 := PutProp(t, n, MapCells(PropData(t, n), l, g).value);
          PropAlike(t, n, MapCells(PropData(t, n), l, g).value);
          PropsOnly(t, t1, r);
          RewritePropsOk(t1, r, g);
          if RewriteProps(t1, r, g).Ok? {
            AlikeTrans(t, t1, RewriteProps(t1, r, g).v);
          }
        }
      }
    case NopF(r) => RewritePropsOk(t, r, g);
    case _ =>
  }

  /** Cells are rewritten exactly if each of the lists leads to some. */
  lemma {:induction false} RewriteOk(t: Forest, fx: Forest, g: nat -> nat)
    requires Uniq(fx)
    ensures Rewrite(t, fx, g).Ok? <==> Fits(t, fx)
    ensures Rewrite(t, fx, g).Ok? ==> Alike(t, Rewrite(t, fx, g).v)
    decreases fx, 1
  {
    hide RewriteProps, RewriteSubs, Fits, PropsFit, SubsFit, Alike, Uniq;
    FitsSplit(t, fx);
    RewritePropsOk(t, fx, g);
    if RewriteProps(t, fx, g).Ok? {
      var t1 := RewriteProps(t, fx, g).v;
      SubsOnly(t, t1, fx);
      RewriteSubsOk(t1, fx, g);
      if RewriteSubs(t1, fx, g).Ok? {
        AlikeTrans(t, t1, RewriteSubs(t1, fx, g).v);
      }
    }
  }

  lemma SubsSplit(t: Forest, fx: Forest)
    requires Uniq(fx) && fx != Nil
    ensures Uniq(fx.rest)
    ensures !fx.SubF? ==> SubsFit(t, fx) == SubsFit(t, fx.rest)
    ensures fx.SubF? ==>
              && Uniq(fx.body)
              && (SubsFit(t, fx) <==> HasSub(t, fx.name) && Fits(SubBody(t, fx.name), fx.body) && SubsFit(t, fx.rest))
  {
    hide Fits;
    if fx.SubF? {
      assert KidAt(fx, fx.name) == Some(fx.body);
      assert forall n | KidAt(fx.rest, n).Some? :: n != fx.name && KidAt(fx, n) == KidAt(fx.rest, n);
    } else {
      assert forall n :: KidAt(fx, n) == KidAt(fx.rest, n);
    }
  }

  lemma {:induction false} RewriteSubsOk(t: Forest, fx: Forest, g: nat -> nat)
    requires Uniq(fx)
    ensures RewriteSubs(t, fx, g).Ok? <==> SubsFit(t, fx)
    ensures RewriteSubs(t, fx, g).Ok? ==> Alike(t, RewriteSubs(t, fx, g).v)
    decreases fx, 0
  {
    hide Rewrite, Fits, SubsFit, Alike, Uniq, HasSub, SubBody, PutSub;
    AlikeSelf(t);
    match fx
    case Nil => NoSubs(t);
    case SubF(n, k, r) =>
      SubsSplit(t, fx);
      if HasSub(t, n) {
        RewriteOk(SubBody(t, n), k, g);
        if Rewrite(SubBody(t, n), k, g).Ok? {
          var t1 := PutSub(t, n, Rewrite(SubBody(t, n), k, g).v);
          SubAlike(t, n, Rewrite(SubBody(t, n), k, g).v);
          SubsOnly(t, t1, r);
          RewriteSubsOk(t1, r, g);
          if RewriteSubs(t1, r, g).Ok? {
            AlikeTrans(t, t1, RewriteSubs(t1, r, g).v);
          }
        }
      }
    case NopF(r) =>
      SubsSplit(t, fx);
      RewriteSubsOk(t, r, g);
    case PropF(_, _, r) =>
      SubsSplit(t, fx);
      RewriteSubsOk(t, r, g);
  }

  lemma NoSubs(t: Forest)
    ensures SubsFit(t, Nil)
  {
  }

  /** The local fixups lead to cells of the overlay. */
  ghost predicate LocalsFit(o: Forest) {
    Fits(o, FixupsOf(o))
  }

  lemma RewriteLocalOk(o: Forest, g: nat -> nat)
    requires Uniq(o) && OwnName(o, LOCAL_FIXUPS)
    ensures RewriteLocal(o, g).Ok? <==> LocalsFit(o)
    ensures RewriteLocal(o, g).Ok? ==> Alike(o, RewriteLocal(o, g).v)
  {
    hide Rewrite, Fits, Alike, Uniq;
    FixupsUniq(o);
    RewriteOk(o, FixupsOf(o), g);
    AlikeSelf(o);
    if !HasSub(o, LOCAL_FIXUPS) {
      NothingFits(o);
    }
  }

  lemma NothingFits(t: Forest)
    ensures Fits(t, Nil)
  {
    assert forall r: Path | NodeAt(Nil, r).Some? :: r == [];
    assert Resolve(t, []) == Some([]);
  }

  /** Whether they do depends on the values of the local fixups, and else on lengths alone. */
  lemma LocalsSame(o: Forest, o': Forest)
    requires Uniq(o) && OwnName(o, LOCAL_FIXUPS) && Alike(o, o') && SameLists(o, o')
    ensures LocalsFit(o') == LocalsFit(o)
  {
    hide Fits, Alike, Uniq, SameLists, FixupsOf;
    FitsOnly(o, o', FixupsOf(o));
    AlikeSkel(o, o');
    SkelMeant(o, o', LOCAL_FIXUPS);
    SkelUniq(o, o');
    FixupsSame(o, o');
    SameFixups(o', FixupsOf(o), FixupsOf(o'));
  }

  /** The same names, and the same values of the properties that are found. */
  ghost predicate SameValues(fx: Forest, fx': Forest) {
    Skel(fx) == Skel(fx') && forall r, x :: ValueAt(fx, r, x) == ValueAt(fx', r, x)
  }

  lemma FixupsSame(o: Forest, o': Forest)
    requires OwnName(o, LOCAL_FIXUPS) && OwnName(o', LOCAL_FIXUPS) && SameLists(o, o')
    ensures SameValues(FixupsOf(o), FixupsOf(o'))
  {
    hide ValueAt, Skel;
    SkelFixups(o, o');
    forall r, x
      ensures ValueAt(FixupsOf(o), r, x) == ValueAt(FixupsOf(o'), r, x)
    {
      UnderFixups(o, r, x);
      UnderFixups(o', r, x);
    }
  }

  lemma UnderFixups(o: Forest, r: Path, x: Str)
    requires OwnName(o, LOCAL_FIXUPS)
    ensures ValueAt(FixupsOf(o), r, x) == ValueAt(o, [LOCAL_FIXUPS] + r, x)
  {
    OwnSub(o, LOCAL_FIXUPS);
    assert ([LOCAL_FIXUPS] + r)[1..] == r;
    NilAt(r, x);
  }

  lemma SameFixups(t: Forest, fx: Forest, fx': Forest)
    requires SameValues(fx, fx')
    ensures Fits(t, fx) == Fits(t, fx')
  {
    hide ValueAt, Skel, ListFits;
    forall r
      ensures NodeAt(fx, r).Some? == NodeAt(fx', r).Some?
      ensures FitsAt(t, fx, r) == FitsAt(t, fx', r)
    {
      SkelNode(fx, fx', r);
    }
  }

  // ----- References into the base -----

  /** The cell that the entry names is inside a property of a node of the overlay. */
  predicate EntryLeads(o: Forest, e: Fixup) {
    match Resolve(o, Comps(e.path))
    case None => false
    case Some(p) => ValueAt(o, p, e.prop).Some? && e.off + 4 <= |ValueAt(o, p, e.prop).value| && e.off <= INT_MAX
  }

  ghost predicate EntriesLead(o: Forest, es: seq<Fixup>) {
    forall e | e in es :: EntryLeads(o, e)
  }

  /** The label y leads to a node of the base that has a phandle, and the entries in d to cells of the overlay. */
  ghost predicate LabelFits(b: Forest, o: Forest, y: Str, d: Str) {
    && LabelNode(b, y).Some? && Ph(b, LabelNode(b, y).value) != 0
    && FdtEntries(d).Some? && EntriesLead(o, FdtEntries(d).value)
  }

  /** So it is for every label of the fixups. */
  ghost predicate LabelsFit(b: Forest, o: Forest) {
    forall y | ValueAt(o, [FIXUPS], y).Some? :: LabelFits(b, o, y, ValueAt(o, [FIXUPS], y).value)
  }

  lemma EntriesSame(o: Forest, o': Forest, es: seq<Fixup>)
    requires Alike(o, o')
    ensures EntriesLead(o', es) == EntriesLead(o, es)
  {
    hide Alike, ValueAt, Resolve, Comps;
    forall e | e in es
      ensures EntryLeads(o', e) == EntryLeads(o, e)
    {
      FlatResolve(o, o', Comps(e.path));
      if Resolve(o, Comps(e.path)).Some? {
        FlatValue(o, o', Resolve(o, Comps(e.path)).value, e.prop);
      }
    }
  }

  lemma StoreOk(o: Forest, e: Fixup, v: nat)
    requires v < U32 && e.path != [] && e.path[0] == SLASH
    ensures FixOne(o, e, v).Ok? <==> EntryLeads(o, e)
    ensures FixOne(o, e, v).Ok? ==> Alike(o, FixOne(o, e, v).v)
  {
    hide Comps, Resolve, PutAt, PutProp, Overwrite, Put32, Alike;
    LookupThere(o, e.path);
    if FixOne(o, e, v).Ok? {
      var p := Lookup(o, e.path).v;
      var k := NodeAt(o, p).value;
      var d := Overwrite(PropData(k, e.prop), e.off, Put32(v));
      PropAlike(k, e.prop, d);
      PutAtAlike(o, p, PutProp(k, e.prop, d));
    }
  }

  lemma {:induction false} StoresOk(o: Forest, es: seq<Fixup>, v: nat)
    requires v < U32 && forall e | e in es :: e.path != [] && e.path[0] == SLASH
    ensures FixEach(o, es, v).Ok? <==> EntriesLead(o, es)
    ensures FixEach(o, es, v).Ok? ==> Alike(o, FixEach(o, es, v).v)
    decreases |es|
  {
    hide FixOne, EntryLeads, Alike;
    AlikeSelf(o);
    if es != [] {
      assert es[0] in es && forall e | e in es[1..] :: e in es;
      assert forall e | e in es :: e == es[0] || e in es[1..];
      StoreOk(o, es[0], v);
      if FixOne(o, es[0], v).Ok? {
        var o1 := FixOne(o, es[0], v).v;
        StoresOk(o1, es[1..], v);
        EntriesSame(o, o1, es[1..]);
        if FixEach(o1, es[1..], v).Ok? {
          AlikeTrans(o, o1, FixEach(o1, es[1..], v).v);
        }
      }
    }
  }

  /** The converse of FixEntriesEach: where every entry can be read and stored, the loop succeeds. */
  lemma {:induction false} EachDone(o: Forest, d: Str, v: nat)
    requires v < U32 && FdtEntries(d).Some? && FixEach(o, FdtEntries(d).value, v).Ok?
    ensures FixEntries(o, d, v).Ok?
    decreases |d|
  {
    hide FixOne, FdtEntry;
    var n := Find(d, 0);
    var e := FdtEntry(d[..n]).value;
    if n + 1 < |d| {
      var es := FdtEntries(d[n + 1..]).value;
      assert ([e] + es)[0] == e && ([e] + es)[1..] == es;
      EachDone(FixOne(o, e, v).v, d[n + 1..], v);
    }
  }

  lemma ValueOk(o: Forest, d: Str, v: nat)
    requires v < U32
    requires FdtEntries(d).Some? ==> forall e | e in FdtEntries(d).value :: e.path != [] && e.path[0] == SLASH
    ensures FixEntries(o, d, v).Ok? <==> FdtEntries(d).Some? && EntriesLead(o, FdtEntries(d).value)
    ensures FixEntries(o, d, v).Ok? ==> Alike(o, FixEntries(o, d, v).v)
  {
    hide FdtEntries, FixEntries, EntriesLead, Alike, FixEach;
    if FixEntries(o, d, v).Ok? {
      FixEntriesEach(o, d, v);
    }
    if FdtEntries(d).Some? {
      StoresOk(o, FdtEntries(d).value, v);
      if FixEach(o, FdtEntries(d).value, v).Ok? {
        EachDone(o, d, v);
      }
    }
  }

  ghost predicate AllFit(b: Forest, o: Forest, fx: Forest) {
    forall y | HasProp(fx, y) :: LabelFits(b, o, y, PropData(fx, y))
  }

  lemma AllSplit(b: Forest, o: Forest, fx: Forest)
    requires Uniq(fx) && AllAbsolute(fx)
    ensures match fx
            case PropF(y, d, r) =>
              && Uniq(r) && AllAbsolute(r) && (AllFit(b, o, fx) <==> LabelFits(b, o, y, d) && AllFit(b, o, r))
              && (FdtEntries(d).Some? ==> forall e | e in FdtEntries(d).value :: e.path != [] && e.path[0] == SLASH)
            case NopF(r) => Uniq(r) && AllAbsolute(r) && AllFit(b, o, fx) == AllFit(b, o, r)
            case _ => AllFit(b, o, fx)
  {
    hide LabelFits, FdtEntries;
    match fx
    case PropF(y, d, r) =>
      assert HasProp(fx, y) && PropData(fx, y) == d;
      assert forall x | HasProp(r, x) :: x != y && HasProp(fx, x) && PropData(fx, x) == PropData(r, x);
    case NopF(r) => assert forall x | HasProp(r, x) :: HasProp(fx, x) && PropData(fx, x) == PropData(r, x);
    case _ =>
  }

  lemma AllSame(b: Forest, o: Forest, o': Forest, fx: Forest)
    requires Alike(o, o')
    ensures AllFit(b, o', fx) == AllFit(b, o, fx)
  {
    hide Alike, EntriesLead, FdtEntries, LabelNode, Ph;
    forall y, d
      ensures LabelFits(b, o', y, d) == LabelFits(b, o, y, d)
    {
      if FdtEntries(d).Some? {
        EntriesSame(o, o', FdtEntries(d).value);
      }
    }
  }

  lemma {:induction false} LabelsOk(b: Forest, o: Forest, fx: Forest)
    requires Uniq(fx) && AllAbsolute(fx)
    ensures FixLabels(b, o, fx).Ok? <==> AllFit(b, o, fx)
    ensures FixLabels(b, o, fx).Ok? ==> Alike(o, FixLabels(b, o, fx).v)
    decreases fx
  {
    hide FixEntries, SymbolPhandle, LabelNode, Ph, AllFit, AllAbsolute, Alike, FdtEntries, EntriesLead, Uniq;
    AllSplit(b, o, fx);
    AlikeSelf(o);
    match fx
    case PropF(y, d, r) =>
      SymbolIsNode(b, y);
      if SymbolPhandle(b, y).Ok? {
        var v := SymbolPhandle(b, y).v;
        ValueOk(o, d, v);
        if FixEntries(o, d, v).Ok? {
          var o1 := FixEntries(o, d, v).v;
          AllSame(b, o, o1, r);
          LabelsOk(b, o1, r);
          if FixLabels(b, o1, r).Ok? {
            AlikeTrans(o, o1, FixLabels(b, o1, r).v);
          }
        }
      }
    case NopF(r) => LabelsOk(b, o, r);
    case _ =>
  }

  // ----- Up to the conflicts -----

  /** Up to the conflicts libfdt succeeds exactly if the phandles fit and the fixups of both kinds lead somewhere. */
  lemma SettledOk(b: Forest, o: Forest)
    requires Sound(o) && FixupsSound(o)
    ensures Resolved(b, o).Ok? <==> PhandlesFit(o, MaxPhandle(b)) && LocalsFit(o) && LabelsFit(b, o)
    ensures Resolved(b, o).Ok? ==> Alike(o, Resolved(b, o).v)
  {
    hide Sound, FixupsSound, Shift, RewriteLocal, FixLabels, PhandlesFit, LocalsFit, Alike, Uniq, Labels, SameLists,
      LabelsFit, HasSub, SubBody, AllFit;
    var delta := MaxPhandle(b);
    SoundParts(o);
    ShiftOk(o, delta);
    if Shift(o, delta).Ok? {
      var o1 := Shift(o, delta).v;
      ShiftLists(o, delta);
      LocalsSame(o, o1);
      AlikeSkel(o, o1);
      SkelMeant(o, o1, LOCAL_FIXUPS);
      SkelUniq(o, o1);
      RewriteLocalOk(o1, Adding(delta));
      if RewriteLocal(o1, Adding(delta)).Ok? {
        var o2 := RewriteLocal(o1, Adding(delta)).v;
        AlikeTrans(o, o1, o2);
        LabelsThere(o, delta, []);
        LabelsOk(b, o2, Labels(o2));
        AllSame(b, o, o2, Labels(o2));
        SameLabels(b, o, delta);
        LabelsAre(o2);
        AlikeSelf(o2);
        if HasSub(o2, FIXUPS) && Fixups(b, o2).Ok? {
          AlikeTrans(o, o2, Fixups(b, o2).v);
        }
      }
    }
  }

  lemma SoundParts(o: Forest)
    requires Sound(o)
    ensures Uniq(o) && OwnName(o, LOCAL_FIXUPS) && OwnName(o, FIXUPS)
  {
  }

  lemma LabelsAre(o: Forest)
    ensures Labels(o) == if HasSub(o, FIXUPS) then SubBody(o, FIXUPS) else Nil
    ensures forall b :: FixLabels(b, o, Nil) == Ok(o)
  {
  }

  lemma SameLabels(b: Forest, o: Forest, delta: nat)
    requires Sound(o) && FixupsSound(o)
    requires Shift(o, delta).Ok? && RewriteLocal(Shift(o, delta).v, Adding(delta)).Ok?
    ensures AllFit(b, o, Labels(RewriteLocal(Shift(o, delta).v, Adding(delta)).v)) == LabelsFit(b, o)
  {
    hide Sound, FixupsSound, Shift, RewriteLocal, Labels, ValueAt, LabelFits, AllAbsolute, Uniq, Skel;
    var fx := Labels(RewriteLocal(Shift(o, delta).v, Adding(delta)).v);
    forall y
      ensures Data(fx, y) == ValueAt(o, [FIXUPS], y)
    {
      LabelsThere(o, delta, y);
    }
    assert forall y :: HasProp(fx, y) <==> ValueAt(o, [FIXUPS], y).Some?;
    assert forall y | HasProp(fx, y) :: PropData(fx, y) == ValueAt(o, [FIXUPS], y).value;
  }
}
